// Where the file system stops being a tree: the exact conditions behind the
// hypotheses of the invariant, and what goes wrong outside them.

module VfsLimits {
  import opened Fields
  import opened Paths
  import opened Vfs
  import opened VfsInvariant
  import opened VfsResolution

  // ---- Renaming the root ---------------------------------------------------------

  lemma RootIsItsOwnParent(st: Store)
    ensures Lookup(st, "/") == At(0) && ParentPath("/") == "/" && Entry("/") == ""
  {
    TokensOfRoot();
    LastSeparatorAt("", '/', "");
    assert "" + ['/'] + "" == "/";
  }

  /** The path that goes down k times through the entry m. */
  function Down(k: nat, m: string): seq<string> {
    seq(k, _ => m)
  }

  /** Renaming the root succeeds and hangs the root below itself: infinitely many
      paths then resolve to it. */
  lemma RenameRootLoops(st: Store, newPath: string)
    requires TreeInv(st)
    ensures var r := Rename(st, "/", newPath); var m := Entry(newPath);
      r.Done? && r.code == 0 && (forall k: nat :: Walk(r.st, 0, Down(k, m)) == At(0))
      && !TreeInv(r.st) && r.st.stat == st.stat && r.st.counter == st.counter
  {
    var m := Entry(newPath);
    var made := HSet(HDel(st, 0, ""), 0, m, 0);
    RootRenamed(st, newPath);
    LoopBelowRoot(st, made, m);
    forall k: nat ensures Walk(made, 0, Down(k, m)) == At(0) {
      DownStays(made, k, m);
    }
  }

  lemma {:induction false} DownStays(made: Store, k: nat, m: string)
    requires 0 in made.dirent && m in made.dirent[0] && made.dirent[0][m] == 0
    ensures Walk(made, 0, Down(k, m)) == At(0)
  {
    if k > 0 {
      assert Down(k, m)[1..] == Down(k - 1, m);
      DownStays(made, k - 1, m);
    }
  }

  lemma RootRenamed(st: Store, newPath: string)
    ensures Rename(st, "/", newPath) == Done(HSet(HDel(st, 0, ""), 0, Entry(newPath), 0), 0)
  {
    RootIsItsOwnParent(st);
  }

  lemma LoopBelowRoot(st: Store, made: Store, m: string)
    requires TreeInv(st) && made == HSet(HDel(st, 0, ""), 0, m, 0)
    ensures HasSlot(made, 0, m) && Slot(made, 0, m) == 0 && !TreeInv(made)
  {
    assert HasSlot(made, 0, m) && Slot(made, 0, m) == 0;
    assert !KnownEntry(made, m, 0);
  }

  // ---- When an operation that succeeds keeps the tree ----------------------------------

  /** A rename that succeeds keeps the tree exactly when it moves something other than the
      root and does not put it over the marker of its directory. */
  lemma RenameKeepsTreeIff(st: Store, pending: set<int>, path: string, newPath: string)
    requires Inv(st, pending) && IsNormal(path)
    ensures Rooted(path)
    ensures var r := Rename(st, path, newPath); var d := Code(Lookup(st, ParentPath(path)));
      r.Done? && r.code == 0 ==>
        PendingFresh(r.st, pending) && (TreeInv(r.st) <==> path != "/" && Entry(newPath) != Marker(d))
  {
    if path == "/" {
      RenameRootLoops(st, newPath);
    } else {
      EntryKeepsTreeIff(st, pending, path, newPath);
    }
  }

  lemma EntryKeepsTreeIff(st: Store, pending: set<int>, path: string, newPath: string)
    requires Inv(st, pending) && IsNormal(path) && path != "/"
    ensures Rooted(path)
    ensures var r := Rename(st, path, newPath); var d := Code(Lookup(st, ParentPath(path)));
      r.Done? && r.code == 0 ==>
        PendingFresh(r.st, pending) && (TreeInv(r.st) <==> Entry(newPath) != Marker(d))
  {
    EntryMoved(st, path, newPath);
    if Code(Walk(st, 0, Names(path))) >= 0 {
      MoveKeepsTreeIff(st, pending, Walk(st, 0, Front(Names(path))).fid, Last(Names(path)), Entry(newPath));
    }
  }

  /** A rename that succeeds moves the slot of its path within one hash. */
  lemma EntryMoved(st: Store, path: string, newPath: string)
    requires TreeInv(st) && IsNormal(path) && path != "/"
    ensures Rooted(path) && Lookup(st, ParentPath(path)) == Walk(st, 0, Front(Names(path)))
    ensures var w, parent := Walk(st, 0, Names(path)), Walk(st, 0, Front(Names(path)));
      var r := Rename(st, path, newPath);
      if Code(w) < 0 then r.Done? ==> r.code == -1
      else
        var n := Last(Names(path));
        parent.At? && HasSlot(st, parent.fid, n) && Slot(st, parent.fid, n) == w.fid
        && r == Done(HSet(HDel(st, parent.fid, n), parent.fid, Entry(newPath), w.fid), 0)
  {
    PathIsNames(st, path);
    if Code(Walk(st, 0, Names(path))) >= 0 {
      WalkArrives(st, Names(path));
    }
  }

  lemma MoveKeepsTreeIff(st: Store, pending: set<int>, d: int, n: string, m: string)
    requires Inv(st, pending) && HasSlot(st, d, n) && Slot(st, d, n) >= 0
    ensures var made := HSet(HDel(st, d, n), d, m, Slot(st, d, n));
      PendingFresh(made, pending) && (TreeInv(made) <==> m != Marker(d))
  {
    if m != Marker(d) {
      RenameKeepsInv(st, pending, d, n, m);
    } else {
      var made := HSet(HDel(st, d, n), d, m, Slot(st, d, n));
      assert HasSlot(made, d, m) && Slot(made, d, m) >= 0;
    }
  }

  /** The directory part of a path names a directory, and its last name is not the
      marker of that directory. */
  ghost predicate KeepsMarker(st: Store, path: string)
    requires Rooted(path)
  {
    var d := Code(Lookup(st, ParentPath(path)));
    IsDir(st, d) && Entry(path) != Marker(d)
  }

  /** A mkdir that succeeds keeps the tree exactly when it makes an entry of a directory
      and does not overwrite the marker of it. */
  lemma MkdirKeepsTreeIff(st: Store, pending: set<int>, path: string, a: Attributes)
    requires Inv(st, pending) && Rooted(path)
    ensures var r := Mkdir(st, path, a);
      r.Done? && r.code == 0 ==>
        PendingFresh(r.st, pending) && (TreeInv(r.st) <==> KeepsMarker(st, path))
        && (DirsMarked(r.st) <==> KeepsMarker(st, path))
  {
    var parent := Lookup(st, ParentPath(path));
    WalkIgnoresCounter(st, 0, Tokens(ParentPath(path)));
    if parent.At? && parent.fid >= 0 {
      ArrivesKnown(st, Tokens(ParentPath(path)));
      SetDirStatFacts(Incr(st), st.counter + 1, a);
      MarkersAfterMkdir(st, Mkdir(st, path, a).st, pending, parent.fid, Entry(path));
    }
  }

  lemma MarkersAfterMkdir(st: Store, made: Store, pending: set<int>, d: int, n: string)
    requires Inv(st, pending) && d in st.stat && made.counter == st.counter + 1
    requires made.dirent == st.dirent[d := HGetAll(st, d)[n := made.counter]][made.counter := map[".placeholder" := -1]]
    requires StatsAgreeBut(st, made, made.counter) && made.counter in made.stat && Mode(made, made.counter) == DIR_MODE
    ensures if IsDir(st, d) && n != Marker(d) then Inv(made, pending)
      else PendingFresh(made, pending) && !DirsMarked(made)
  {
    var fid := made.counter;
    assert Mode(made, d) == Mode(st, d);
    if IsDir(st, d) && n != Marker(d) {
      MkdirKeepsInv(st, made, pending, d, n, fid);
    } else {
      assert d in made.dirent && (IsDir(st, d) ==> HasSlot(made, d, n) && Slot(made, d, n) == fid);
      assert !(IsDir(made, d) && HasSlot(made, d, Marker(d)) && Slot(made, d, Marker(d)) == -1);
    }
  }

  /** The same for save_new_file of a fid that get_new_fid handed out. */
  lemma SaveKeepsTreeIff(
      st: Store, pending: set<int>, path: string, size: int, a: Attributes, fid: int, slave: Slave)
    requires Inv(st, pending) && Rooted(path) && fid in pending
    ensures var r := SaveNewFile(st, path, size, a, fid, slave);
      r.Done? && r.code == 0 ==>
        PendingFresh(r.st, pending - {fid}) && (TreeInv(r.st) <==> KeepsMarker(st, path))
        && (DirsMarked(r.st) <==> KeepsMarker(st, path))
  {
    var parent := Lookup(st, ParentPath(path));
    if parent.At? && parent.fid >= 0 {
      ArrivesKnown(st, Tokens(ParentPath(path)));
      SetFileStatFacts(HSet(st, parent.fid, Entry(path), fid), fid, size, a, slave);
      MarkersAfterSave(st, SaveNewFile(st, path, size, a, fid, slave).st, pending, parent.fid, Entry(path), fid);
    }
  }

  lemma MarkersAfterSave(st: Store, made: Store, pending: set<int>, d: int, n: string, fid: int)
    requires Inv(st, pending) && d in st.stat && fid in pending && made.counter == st.counter
    requires made.dirent == st.dirent[d := HGetAll(st, d)[n := fid]]
    requires StatsAgreeBut(st, made, fid) && fid in made.stat && Mode(made, fid) == FILE_MODE
    ensures if IsDir(st, d) && n != Marker(d) then Inv(made, pending - {fid})
      else PendingFresh(made, pending - {fid}) && !DirsMarked(made)
  {
    assert Mode(made, d) == Mode(st, d);
    if IsDir(st, d) && n != Marker(d) {
      SaveKeepsInv(st, made, pending, d, n, fid);
    } else {
      assert d in made.dirent && (IsDir(st, d) ==> HasSlot(made, d, n) && Slot(made, d, n) == fid);
      assert !(IsDir(made, d) && HasSlot(made, d, Marker(d)) && Slot(made, d, Marker(d)) == -1);
    }
  }

  /** A remove that succeeds keeps the tree exactly when it removes a regular file. */
  lemma RemoveKeepsTreeIff(st: Store, pending: set<int>, path: string)
    requires Inv(st, pending) && IsNormal(path)
    ensures Rooted(path)
    ensures var r := Remove(st, path);
      r.Done? && r.code == 0 ==>
        PendingFresh(r.st, pending) && (TreeInv(r.st) <==> IsFile(st, Code(Lookup(st, path))))
  {
    PathIsNames(st, path);
    var target := Lookup(st, path);
    if target.At? && target.fid >= 0 {
      ArrivesKnown(st, Names(path));
      if path == "/" {
        RootIsItsOwnParent(st);
        DirRemoved(st, pending, 0, "", 0);
      } else {
        WalkArrives(st, Names(path));
        var d := Walk(st, 0, Front(Names(path))).fid;
        if IsFile(st, target.fid) {
          RemoveKeepsInv(st, pending, d, Entry(path));
        } else {
          DirRemoved(st, pending, d, Entry(path), target.fid);
        }
      }
    }
  }

  lemma DirRemoved(st: Store, pending: set<int>, d: int, n: string, f: int)
    requires Inv(st, pending) && IsDir(st, f) && d in st.dirent && n != Marker(d)
    ensures var gone := DelStat(HDel(st, d, n), f); PendingFresh(gone, pending) && !TreeInv(gone)
  {
    assert HasSlot(st, d, Marker(d));
    assert Marker(d) in st.dirent[d] - {n};
    assert f in HDel(st, d, n).dirent;
  }

  // ---- Renaming across directories ----------------------------------------------------

  /** A rename that succeeds is found under the new path exactly when the new path has
      the parent of the old one: it never is the root. */
  lemma RenameReachesTargetIff(st: Store, pending: set<int>, path: string, newPath: string)
    requires Inv(st, pending) && IsNormal(path) && path != "/" && IsNormal(newPath)
    ensures Rooted(path) && (newPath != "/" ==> Names(newPath) != [])
    ensures var r := Rename(st, path, newPath);
      r.Done? && r.code == 0 ==>
        (Walk(r.st, 0, Names(newPath)) == Walk(st, 0, Names(path))
         <==> newPath != "/" && Front(Names(newPath)) == Front(Names(path)))
  {
    EntryMoved(st, path, newPath);
    PathIsNames(st, newPath);
    if Code(Walk(st, 0, Names(path))) >= 0 {
      if newPath == "/" {
        RootIsNoTarget(st, Rename(st, path, newPath).st, path);
      } else {
        var p := Front(Names(path));
        TargetReachedIff(st, p, Walk(st, 0, p).fid, Last(Names(path)), Names(newPath));
      }
    }
  }

  lemma RootIsNoTarget(st: Store, made: Store, path: string)
    requires TreeInv(st) && IsNormal(path) && path != "/" && Walk(st, 0, Names(path)).At?
    ensures Walk(made, 0, Names("/")) == At(0) != Walk(st, 0, Names(path))
  {
    TokensOfRoot();
    NamesOfRender([]);
    PathIsNames(st, path);
    if Walk(st, 0, Names(path)) == At(0) {
      LookupInjective(st, Names(path), []);
    }
  }

  lemma TargetReachedIff(st: Store, p: seq<string>, d: int, n: string, target: seq<string>)
    requires TreeInv(st) && Walk(st, 0, p) == At(d) && HasSlot(st, d, n) && Slot(st, d, n) >= 0 && target != []
    ensures var made := HSet(HDel(st, d, n), d, Last(target), Slot(st, d, n));
      Walk(made, 0, target) == At(Slot(st, d, n)) <==> Front(target) == p
  {
    var m, f := Last(target), Slot(st, d, n);
    var made := HSet(HDel(st, d, n), d, m, f);
    SlotInMade(st, made, d, n, m);
    RenameEdits(st, made, d, n, m);
    SlotMoved(st, made, p, d, n, m);
    MovedTo(st, made, p, d, n, m);
    assert target == Front(target) + [m];
    WalkLast(made, target);
    assert [m][1..] == [];
    if Walk(made, 0, target) == At(f) {
      var up := Walk(made, 0, Front(target));
      assert HasSlot(made, up.fid, m) && Slot(made, up.fid, m) == f;
      assert up == At(d);
      OneWayIn(st, made, p, d, n, m, Front(target));
    }
  }

  /** The fid moved is in no slot but the new one. */
  lemma SlotInMade(st: Store, made: Store, d: int, n: string, m: string)
    requires TreeInv(st) && HasSlot(st, d, n) && Slot(st, d, n) >= 0
    requires made == HSet(HDel(st, d, n), d, m, Slot(st, d, n))
    ensures made.dirent == st.dirent[d := (st.dirent[d] - {n})[m := Slot(st, d, n)]]
    ensures forall e, k :: HasSlot(made, e, k) && Slot(made, e, k) == Slot(st, d, n) ==> e == d && k == m
  {
    var f := Slot(st, d, n);
    assert HasSlot(st, d, Marker(d));
    assert Marker(d) in st.dirent[d] - {n};
    forall e, k | HasSlot(made, e, k) && !(e == d && k == m)
      ensures Slot(made, e, k) != f
    {
      assert HasSlot(st, e, k) && Slot(st, e, k) == Slot(made, e, k) && !(e == d && k == n);
    }
  }

  /** The edited hash is still reached along one path only. */
  lemma OneWayIn(st: Store, made: Store, p: seq<string>, d: int, n: string, m: string, q: seq<string>)
    requires TreeInv(st) && Walk(st, 0, p) == At(d) && d >= 0
    requires forall s :: Walk(made, 0, p + [m] + s) == Walk(st, 0, p + [n] + s)
    requires n != m ==> forall s :: Walk(made, 0, p + [n] + s) == Missing
    requires forall o :: !Below(p + [n], o) && !Below(p + [m], o) ==> Walk(made, 0, o) == Walk(st, 0, o)
    requires Walk(made, 0, q) == At(d)
    ensures q == p
  {
    if Below(p + [m], q) || Below(p + [n], q) {
      var s := q[|p| + 1..];
      BelowSplits(p, if Below(p + [m], q) then m else n, q);
      assert Walk(st, 0, p + [n] + s) == At(d);
      LookupInjective(st, p + [n] + s, p);
    } else {
      LookupInjective(st, q, p);
    }
  }

  lemma BelowSplits(p: seq<string>, m: string, q: seq<string>)
    requires Below(p + [m], q)
    ensures q == p + [m] + q[|p| + 1..]
  {
    assert |q| > |p|;
  }

  lemma MovedTo(st: Store, made: Store, p: seq<string>, d: int, n: string, m: string)
    requires Walk(st, 0, p) == At(d) && HasSlot(st, d, n)
    requires forall s :: Walk(made, 0, p + [m] + s) == Walk(st, 0, p + [n] + s)
    ensures Walk(made, 0, p + [m]) == Walk(st, 0, p + [n]) == At(Slot(st, d, n))
  {
    assert p + [m] + [] == p + [m] && p + [n] + [] == p + [n];
    WalkConcat(st, 0, p, [n]);
    assert [n][1..] == [];
  }

  // ---- A directory without its marker ------------------------------------------------------

  /** A file saved over the marker of an otherwise empty directory and then removed
      leaves no hash: from then on lookup_fid never returns from below it. */
  lemma MarkerRemovedSpins(
      st: Store, pending: set<int>, path: string, size: int, a: Attributes, fid: int, slave: Slave, m: string)
    requires Inv(st, pending) && IsNormal(path) && path != "/" && fid in pending
    requires var w := Walk(st, 0, Front(Names(path)));
      w.At? && w.fid in st.dirent && Last(Names(path)) == Marker(w.fid) && st.dirent[w.fid].Keys == {Marker(w.fid)}
    ensures Rooted(path)
    ensures var saved := SaveNewFile(st, path, size, a, fid, slave);
      saved.Done? && saved.code == 0
      && var gone := Remove(saved.st, path);
         gone.Done? && gone.code == 0
         && Walk(st, 0, Front(Names(path)) + [m]) != Spins
         && Walk(gone.st, 0, Front(Names(path)) + [m]) == Spins
  {
    SaveOverMarker(st, path, size, a, fid, slave);
    OnlyEntryRemoved(st, SaveNewFile(st, path, size, a, fid, slave).st, path,
                     Walk(st, 0, Front(Names(path))).fid, fid, m);
  }

  lemma SaveOverMarker(st: Store, path: string, size: int, a: Attributes, fid: int, slave: Slave)
    requires IsNormal(path) && path != "/"
    requires var w := Walk(st, 0, Front(Names(path)));
      w.At? && w.fid >= 0 && w.fid in st.dirent && st.dirent[w.fid].Keys == {Last(Names(path))}
    ensures Rooted(path)
    ensures var r := SaveNewFile(st, path, size, a, fid, slave);
      r.Done? && r.code == 0
      && r.st.dirent == st.dirent[Walk(st, 0, Front(Names(path))).fid := map[Last(Names(path)) := fid]]
  {
    PathIsNames(st, path);
    var d, n := Walk(st, 0, Front(Names(path))).fid, Last(Names(path));
    SetFileStatFrame(HSet(st, d, n, fid), fid, size, a, slave);
    assert st.dirent[d][n := fid].Keys == {n};
    assert st.dirent[d][n := fid] == map[n := fid];
  }

  /** The same end is reached with RNFR and RNTO: the only entry beside the marker is
      renamed to the name of the marker and then removed. */
  lemma RenamedOverMarkerSpins(st: Store, pending: set<int>, path: string, newPath: string, m: string)
    requires Inv(st, pending) && IsNormal(path) && path != "/" && IsNormal(newPath) && newPath != "/"
    requires Front(Names(newPath)) == Front(Names(path)) && Code(Walk(st, 0, Names(path))) >= 0
    requires var w := Walk(st, 0, Front(Names(path)));
      w.At? && w.fid in st.dirent && Last(Names(newPath)) == Marker(w.fid)
      && st.dirent[w.fid].Keys == {Last(Names(path)), Marker(w.fid)}
    ensures Rooted(path) && Rooted(newPath)
    ensures var moved := Rename(st, path, newPath);
      moved.Done? && moved.code == 0
      && var gone := Remove(moved.st, newPath);
         gone.Done? && gone.code == 0
         && Walk(st, 0, Front(Names(path)) + [m]) != Spins
         && Walk(gone.st, 0, Front(Names(path)) + [m]) == Spins
  {
    PathIsNames(st, newPath);
    EntryMoved(st, path, newPath);
    var d := Walk(st, 0, Front(Names(path))).fid;
    OnlyMarkerLeft(st, d, Last(Names(path)));
    OnlyEntryRemoved(st, Rename(st, path, newPath).st, newPath, d, Walk(st, 0, Names(path)).fid, m);
  }

  lemma OnlyMarkerLeft(st: Store, d: int, n: string)
    requires TreeInv(st) && HasSlot(st, d, n) && Slot(st, d, n) >= 0 && st.dirent[d].Keys == {n, Marker(d)}
    ensures HSet(HDel(st, d, n), d, Marker(d), Slot(st, d, n)).dirent
      == st.dirent[d := map[Marker(d) := Slot(st, d, n)]]
  {
    assert HasSlot(st, d, Marker(d)) && n != Marker(d);
    var left := st.dirent[d] - {n};
    assert left.Keys == {Marker(d)};
    assert left[Marker(d) := Slot(st, d, n)] == map[Marker(d) := Slot(st, d, n)];
  }

  lemma OnlyEntryRemoved(st: Store, made: Store, path: string, d: int, fid: int, m: string)
    requires TreeInv(st) && IsNormal(path) && path != "/" && fid >= 0
    requires Walk(st, 0, Front(Names(path))) == At(d) && d in st.dirent
    requires made.dirent == st.dirent[d := map[Last(Names(path)) := fid]]
    ensures Rooted(path) && Walk(st, 0, Front(Names(path)) + [m]) != Spins
    ensures var gone := Remove(made, path);
      gone.Done? && gone.code == 0 && Walk(gone.st, 0, Front(Names(path)) + [m]) == Spins
  {
    var p, n := Front(Names(path)), Last(Names(path));
    assert Names(path) == p + [n];
    MarkerOverwritten(st, made, p, d, n, fid, m);
    PathIsNames(made, path);
    LastEntryDeleted(made, d, n, fid);
    MarkerGone(made, Remove(made, path).st, p, d, m);
  }

  lemma LastEntryDeleted(made: Store, d: int, n: string, fid: int)
    requires d in made.dirent && made.dirent[d] == map[n := fid]
    ensures DelStat(HDel(made, d, n), fid).dirent == made.dirent - {d}
  {
    assert map[n := fid] - {n} == map[];
  }

  lemma MarkerOverwritten(st: Store, made: Store, p: seq<string>, d: int, n: string, fid: int, m: string)
    requires TreeInv(st) && Walk(st, 0, p) == At(d) && d in st.dirent
    requires made.dirent == st.dirent[d := map[n := fid]]
    ensures Walk(made, 0, p) == At(d) && Walk(made, 0, p + [n]) == At(fid)
    ensures Walk(st, 0, p + [m]) != Spins
  {
    var ns := st.dirent[d].Keys + {n};
    assert HasSlot(st, d, Marker(d)) && n in HGetAll(made, d);
    assert HGetAll(made, d) - ns == map[] == HGetAll(st, d) - ns;
    EditFrame(st, made, p, d, ns, p);
    WalkConcat(made, 0, p, [n]);
    WalkConcat(st, 0, p, [m]);
    assert [n][1..] == [] && [m][1..] == [];
  }

  lemma MarkerGone(made: Store, gone: Store, p: seq<string>, d: int, m: string)
    requires Walk(made, 0, p) == At(d) && gone.dirent == made.dirent - {d}
    ensures Walk(gone, 0, p + [m]) == Spins
  {
    SpinsOnceGone(made, gone, p, d);
    WalkConcat(gone, 0, p, [m]);
  }

  /** Once the hash of d is deleted a walk arrives where it did, or spins at d. */
  lemma {:induction false} SpinsOnceGone(made: Store, gone: Store, p: seq<string>, d: int)
    requires Walk(made, 0, p).At? && gone.dirent == made.dirent - {d}
    ensures Walk(gone, 0, p) == Walk(made, 0, p) || Walk(gone, 0, p).Spins?
    decreases |p|
  {
    if p != [] {
      WalkConcat(made, 0, Front(p), [Last(p)]);
      WalkConcat(gone, 0, Front(p), [Last(p)]);
      assert p == Front(p) + [Last(p)] && [Last(p)][1..] == [];
      SpinsOnceGone(made, gone, Front(p), d);
    }
  }
}
