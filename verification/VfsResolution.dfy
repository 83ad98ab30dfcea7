// How paths resolve in a tree: lookup_fid ends, it is injective, and an operation
// changes resolution below the paths it names and nowhere else.

module VfsResolution {
  import opened Paths
  import opened Vfs
  import opened VfsInvariant

  /** Two different paths never resolve to the same fid. */
  lemma {:induction false} LookupInjective(st: Store, p: seq<string>, q: seq<string>)
    requires TreeInv(st)
    requires Walk(st, 0, p).At? && Walk(st, 0, p).fid >= 0 && Walk(st, 0, p) == Walk(st, 0, q)
    ensures p == q
    decreases |p|
  {
    if p == [] {
      if q != [] { WalkArrives(st, q); }
    } else if q == [] {
      WalkArrives(st, p);
    } else {
      WalkArrives(st, p);
      WalkArrives(st, q);
      LookupInjective(st, Front(p), Front(q));
      assert p == Front(p) + [Last(p)] && q == Front(q) + [Last(q)];
    }
  }

  /** The same over path strings, as lookup_fid is called. */
  lemma LookupFidInjective(st: Store, pending: set<int>, p: string, q: string)
    requires Reachable(st, pending) && IsNormal(p) && IsNormal(q)
    requires Rooted(p) && Rooted(q) && Code(Lookup(st, p)) >= 0 && Code(Lookup(st, p)) == Code(Lookup(st, q))
    ensures p == q
  {
    ReachableTree(st, pending);
    PathIsNames(st, p);
    PathIsNames(st, q);
    LookupInjective(st, Names(p), Names(q));
  }

  // ---- Termination -------------------------------------------------------------

  /** A proper prefix of the names leads to a file or to a reserved entry. */
  ghost predicate Blocked(st: Store, names: seq<string>) {
    exists k :: 0 < k < |names| && BlockedAt(st, names, k)
  }

  ghost predicate BlockedAt(st: Store, names: seq<string>, k: nat)
    requires k <= |names|
  {
    var w := Walk(st, 0, names[..k]);
    w.At? && (w.fid < 0 || IsFile(st, w.fid))
  }

  lemma StopsOrHasHash(st: Store, names: seq<string>)
    requires TreeInv(st) && Walk(st, 0, names).At?
    ensures var f := Walk(st, 0, names).fid;
      if f < 0 || IsFile(st, f) then HGetAll(st, f) == map[] else HGetAll(st, f) != map[]
  {
    var f := Walk(st, 0, names).fid;
    if names != [] { WalkArrives(st, names); }
    if f in st.dirent { assert HasSlot(st, f, Marker(f)); }
  }

  /** lookup_fid spins exactly on the paths that go on below a file or a reserved
      entry: everywhere else each directory hash it asks for is non-empty. */
  lemma {:induction false} SpinsIffBlocked(st: Store, names: seq<string>)
    requires TreeInv(st)
    ensures Walk(st, 0, names).Spins? <==> Blocked(st, names)
    decreases |names|
  {
    if names == [] {
      assert !Blocked(st, names);
    } else {
      var front := Front(names);
      SpinsIffBlocked(st, front);
      WalkLast(st, names);
      forall k | 0 < k < |front|
        ensures BlockedAt(st, front, k) == BlockedAt(st, names, k)
      {
        assert names[..k] == front[..k];
      }
      assert names[..|front|] == front;
      if Walk(st, 0, front).At? {
        StopsOrHasHash(st, front);
        if front == [] {
          assert !Walk(st, 0, names).Spins?;
        } else {
          assert Walk(st, 0, names).Spins? <==> BlockedAt(st, names, |front|);
        }
      }
      if Blocked(st, names) && !Blocked(st, front) {
        var k :| 0 < k < |names| && BlockedAt(st, names, k);
        assert k == |front|;
      }
    }
  }

  lemma LookupFidTerminates(st: Store, pending: set<int>, path: string)
    requires Reachable(st, pending) && IsNormal(path)
    ensures Rooted(path)
    ensures !Lookup(st, path).Spins? <==> !Blocked(st, Names(path))
    ensures path != "/" ==> Lookup(st, path + "/") == Lookup(st, path)
  {
    ReachableTree(st, pending);
    PathIsNames(st, path);
    SpinsIffBlocked(st, Names(path));
  }

  // ---- Frames ---------------------------------------------------------------------

  ghost predicate Below(names: seq<string>, q: seq<string>) {
    names <= q
  }

  /** made differs from st in the hash of d, there in the entries ns alone (which may
      come, go or change), and in hashes of fids that st had no record of. */
  ghost predicate EditedAt(st: Store, made: Store, d: int, ns: set<string>) {
    && d in st.dirent && HGetAll(made, d) != map[]
    && HGetAll(made, d) - ns == HGetAll(st, d) - ns
    && forall e :: e != d && (e in st.stat || e < 0) ==> HGetAll(made, e) == HGetAll(st, e)
  }

  ghost predicate Avoids(p: seq<string>, ns: set<string>, q: seq<string>) {
    forall n :: n in ns ==> !Below(p + [n], q)
  }

  /** One step of a walk from a fid that exists sees the edit only at its entries. */
  lemma EditSeen(st: Store, made: Store, d: int, ns: set<string>, g: int, m: string)
    requires TreeInv(st) && EditedAt(st, made, d, ns)
    requires (g in st.stat || g < 0) && !(g == d && m in ns)
    ensures Walk(made, g, [m]) == Walk(st, g, [m])
  {
    assert [m][1..] == [];
    if g == d {
      assert HasSlot(st, d, Marker(d));
      assert (m in HGetAll(made, d) - ns) == (m in HGetAll(made, d));
      assert (m in HGetAll(st, d) - ns) == (m in HGetAll(st, d));
      if m in HGetAll(st, d) {
        assert (HGetAll(made, d) - ns)[m] == (HGetAll(st, d) - ns)[m];
      }
    }
  }

  /** Paths that do not go through an edited entry resolve as before.  The edited
      hash is reached along one path only, so this is a matter of prefixes. */
  lemma {:induction false} EditFrame(
      st: Store, made: Store, p: seq<string>, d: int, ns: set<string>, q: seq<string>)
    requires TreeInv(st) && Walk(st, 0, p) == At(d) && EditedAt(st, made, d, ns) && Avoids(p, ns, q)
    ensures Walk(made, 0, q) == Walk(st, 0, q)
    decreases |q|
  {
    if q != [] {
      var front, last := Front(q), Last(q);
      assert q == front + [last];
      AvoidsFront(p, ns, front, last);
      EditFrame(st, made, p, d, ns, front);
      WalkLast(st, q);
      WalkLast(made, q);
      if Walk(st, 0, front).At? {
        var g := Walk(st, 0, front).fid;
        if front != [] { WalkArrives(st, front); }
        if g == d {
          LookupInjective(st, p, front);
        }
        EditSeen(st, made, d, ns, g, last);
      }
    }
  }

  lemma AvoidsFront(p: seq<string>, ns: set<string>, front: seq<string>, last: string)
    requires Avoids(p, ns, front + [last])
    ensures Avoids(p, ns, front) && (front == p ==> last !in ns)
  {
    var q := front + [last];
    forall n | n in ns && Below(p + [n], front)
      ensures Below(p + [n], q)
    {}
    assert front == p ==> Below(p + [last], q);
  }

  /** Below an entry that the walk to the edited hash does not pass, nothing changes:
      a walk from there back into that hash would be a second path to it. */
  lemma {:induction false} SubtreeFrame(
      st: Store, made: Store, p: seq<string>, d: int, ns: set<string>, q: seq<string>, s: seq<string>)
    requires TreeInv(st) && Walk(st, 0, p) == At(d) && EditedAt(st, made, d, ns)
    requires |q| > |p| && Walk(st, 0, q).At?
    ensures Walk(made, Walk(st, 0, q).fid, s) == Walk(st, Walk(st, 0, q).fid, s)
    decreases |s|
  {
    var f := Walk(st, 0, q).fid;
    if s != [] {
      var front, last := Front(s), Last(s);
      assert s == front + [last];
      SubtreeFrame(st, made, p, d, ns, q, front);
      WalkConcat(st, f, front, [last]);
      WalkConcat(made, f, front, [last]);
      if Walk(st, f, front).At? {
        var g := Walk(st, f, front).fid;
        WalkConcat(st, 0, q, front);
        WalkArrives(st, q + front);
        if g == d {
          LookupInjective(st, p, q + front);
        }
        EditSeen(st, made, d, ns, g, last);
      }
    }
  }

  // ---- mkdir, save_new_file and remove -----------------------------------------------

  ghost predicate Unchanged(st: Store, made: Store, p: seq<string>) {
    forall q :: !Below(p, q) ==> Walk(made, 0, q) == Walk(st, 0, q)
  }

  lemma EditUnchanged(st: Store, made: Store, path: string, d: int)
    requires TreeInv(st) && Editable(path) && Walk(st, 0, Front(Names(path))) == At(d)
    requires EditedAt(st, made, d, {Last(Names(path))})
    ensures Unchanged(st, made, Names(path))
    ensures Walk(made, 0, Names(path)) == Walk(made, d, [Last(Names(path))])
  {
    var p, n := Front(Names(path)), Last(Names(path));
    assert Names(path) == p + [n];
    forall q | !Below(Names(path), q)
      ensures Walk(made, 0, q) == Walk(st, 0, q)
    {
      EditFrame(st, made, p, d, {n}, q);
    }
    WalkLast(made, Names(path));
    assert !Below(Names(path), p);
  }

  /** After a mkdir that succeeds the path is the fresh directory, which holds nothing
      but its placeholder, and every path that is not at or below it is untouched. */
  lemma MkdirResolution(st: Store, pending: set<int>, path: string, a: Attributes)
    requires Inv(st, pending) && Editable(path) && DirParent(st, path)
    ensures Rooted(path)
    ensures var r := Mkdir(st, path, a);
      r.Done? && (r.code == 0 ==>
        && Walk(r.st, 0, Names(path)) == At(st.counter + 1) && IsDir(r.st, st.counter + 1)
        && StatOf(r.st, st.counter + 1) == FileStat(DIR_MODE, 4096, a.uid, a.gid, a.now)
        && (forall m :: Walk(r.st, 0, Names(path) + [m]) == if m == ".placeholder" then At(-1) else Missing)
        && Unchanged(st, r.st, Names(path)))
  {
    LegalMkdir(st, pending, path, a);
    var parent := Walk(st, 0, Front(Names(path)));
    if parent.At? {
      DirMade(st, Mkdir(st, path, a).st, path, parent.fid, st.counter + 1);
    }
  }

  lemma DirMade(st: Store, made: Store, path: string, d: int, fid: int)
    requires TreeInv(st) && Editable(path) && Walk(st, 0, Front(Names(path))) == At(d) && d in st.dirent
    requires fid == st.counter + 1
    requires made.dirent == st.dirent[d := st.dirent[d][Last(Names(path)) := fid]][fid := map[".placeholder" := -1]]
    ensures Unchanged(st, made, Names(path)) && Walk(made, 0, Names(path)) == At(fid)
    ensures forall m :: Walk(made, 0, Names(path) + [m]) == if m == ".placeholder" then At(-1) else Missing
  {
    assert fid !in st.stat && fid !in st.dirent;
    assert Last(Names(path)) in HGetAll(made, d);
    EditUnchanged(st, made, path, d);
    assert [Last(Names(path))][1..] == [];
    forall m
      ensures Walk(made, 0, Names(path) + [m]) == if m == ".placeholder" then At(-1) else Missing
    {
      WalkConcat(made, 0, Names(path), [m]);
      assert [m][1..] == [];
      assert ".placeholder" in HGetAll(made, fid);
    }
  }

  lemma SlotSet(st: Store, made: Store, path: string, d: int, f: int)
    requires TreeInv(st) && Editable(path) && Walk(st, 0, Front(Names(path))) == At(d) && d in st.dirent
    requires made.dirent == st.dirent[d := st.dirent[d][Last(Names(path)) := f]]
    ensures Unchanged(st, made, Names(path)) && Walk(made, 0, Names(path)) == At(f)
  {
    assert Last(Names(path)) in HGetAll(made, d);
    EditUnchanged(st, made, path, d);
    assert [Last(Names(path))][1..] == [];
  }

  /** After a save_new_file that succeeds the path is the given fid, a regular file
      recorded on the given slave, and every path not at or below it is untouched. */
  lemma SaveResolution(
      st: Store, pending: set<int>, path: string, size: int, a: Attributes, fid: int, slave: Slave)
    requires Inv(st, pending) && Editable(path) && DirParent(st, path) && fid in pending
    ensures Rooted(path)
    ensures var r := SaveNewFile(st, path, size, a, fid, slave);
      r.Done? && (r.code == 0 ==>
        && Walk(r.st, 0, Names(path)) == At(fid)
        && IsFile(r.st, fid) && SlaveOf(r.st, fid) == slave
        && StatOf(r.st, fid) == FileStat(FILE_MODE, size, a.uid, a.gid, a.now)
        && Unchanged(st, r.st, Names(path)))
  {
    LegalSave(st, pending, path, size, a, fid, slave);
    LegalLookups(st, path);
    var r := SaveNewFile(st, path, size, a, fid, slave);
    if r.code == 0 {
      SlotSet(st, r.st, path, Walk(st, 0, Front(Names(path))).fid, fid);
    }
  }

  /** After a remove that succeeds the path resolves to nothing, its stat record is
      gone, and every path not at or below it is untouched. */
  lemma RemoveResolution(st: Store, pending: set<int>, path: string)
    requires Inv(st, pending) && Legal(st, pending, RemoveOp(path))
    ensures Rooted(path)
    ensures var r := Remove(st, path);
      r.Done? && (r.code == 0 ==>
        && Walk(r.st, 0, Names(path)) == Missing
        && Lookup(st, path).At? && Lookup(st, path).fid !in r.st.stat
        && Unchanged(st, r.st, Names(path)))
  {
    LegalRemove(st, pending, path);
    var parent := Walk(st, 0, Front(Names(path)));
    var n := Last(Names(path));
    if parent.At? && HasSlot(st, parent.fid, n) && Slot(st, parent.fid, n) >= 0 {
      SlotCleared(st, Remove(st, path).st, path, parent.fid);
    }
  }

  lemma SlotCleared(st: Store, made: Store, path: string, d: int)
    requires TreeInv(st) && Editable(path) && Walk(st, 0, Front(Names(path))) == At(d) && d in st.dirent
    requires made.dirent == st.dirent[d := st.dirent[d] - {Last(Names(path))}]
    ensures Unchanged(st, made, Names(path)) && Walk(made, 0, Names(path)) == Missing
  {
    assert HasSlot(st, d, Marker(d)) && Marker(d) in HGetAll(made, d);
    EditUnchanged(st, made, path, d);
    assert [Last(Names(path))][1..] == [];
  }

  // ---- What is in the store, spelled out -------------------------------------------------

  /** The store InitRedis leaves: a root directory with the entry ".foo" alone. */
  lemma InitSpelledOut(now: int, n: string)
    ensures var st := InitRedis(now);
      Walk(st, 0, [n]) == (if n == ".foo" then At(-1) else Missing)
      && StatOf(st, 0) == FileStat(16895, 4096, 1, 1, now) && st.stat.Keys == {0} && st.counter == 0
  {
    var st := InitRedis(now);
    assert [n][1..] == [] && ".foo" in HGetAll(st, 0);
    assert st.stat[0]["st_mode"] == Num(16895);
  }

  /** The attributes of a new directory: a directory with all permission bits. */
  lemma MadeHash(st: Store, path: string, a: Attributes)
    requires Rooted(path) && st.counter + 1 !in st.stat
    ensures var r := Mkdir(st, path, a);
      r.Done? && r.code == 0 ==>
        HGetStat(r.st, st.counter + 1) ==
          map["st_size" := Num(4096), "st_mode" := Num(16895), "st_uid" := Num(a.uid), "st_gid" := Num(a.gid),
              "st_mtime" := Num(a.now)]
        && StatOf(r.st, st.counter + 1).mode / 4096 == 4 && StatOf(r.st, st.counter + 1).mode % 512 == 511
  {
    var made := SetDirStat(Incr(st), st.counter + 1, a);
    DirHash(Incr(st), st.counter + 1, a);
    ModeOfNewDir(made, st.counter + 1);
    var r := Mkdir(st, path, a);
    assert r.Done? && r.code == 0 ==> r.st.stat == made.stat;
  }

  lemma ModeOfNewDir(st: Store, f: int)
    requires "st_mode" in HGetStat(st, f) && HGetStat(st, f)["st_mode"] == Num(16895)
    ensures StatOf(st, f).mode / 4096 == 4 && StatOf(st, f).mode % 512 == 511
  {
  }

  lemma DirHash(st: Store, f: int, a: Attributes)
    requires f !in st.stat
    ensures HGetStat(SetDirStat(st, f, a), f) ==
      map["st_size" := Num(4096), "st_mode" := Num(16895), "st_uid" := Num(a.uid), "st_gid" := Num(a.gid),
          "st_mtime" := Num(a.now)]
  {
  }

  /** The attributes of a new file: a regular file with all permission bits, and its slave. */
  lemma SavedHash(st: Store, path: string, size: int, a: Attributes, fid: int, slave: Slave)
    requires Rooted(path) && fid !in st.stat
    ensures var r := SaveNewFile(st, path, size, a, fid, slave);
      r.Done? && r.code == 0 ==>
        HGetStat(r.st, fid) ==
          map["st_mode" := Num(33279), "st_size" := Num(size), "st_uid" := Num(a.uid), "st_gid" := Num(a.gid),
              "st_mtime" := Num(a.now), "slave_host" := Text(slave.host), "slave_port" := Num(slave.port)]
        && StatOf(r.st, fid).mode / 4096 == 8 && StatOf(r.st, fid).mode % 512 == 511
  {
    var parent := Lookup(st, ParentPath(path));
    if Code(parent) >= 0 {
      var entered := HSet(st, parent.fid, Entry(path), fid);
      NewFileHash(entered, fid, size, a, slave);
      ModeOfNewFile(SetFileStat(entered, fid, size, a, slave), fid);
    }
  }

  lemma ModeOfNewFile(st: Store, f: int)
    requires "st_mode" in HGetStat(st, f) && HGetStat(st, f)["st_mode"] == Num(33279)
    ensures StatOf(st, f).mode / 4096 == 8 && StatOf(st, f).mode % 512 == 511
  {
  }

  lemma NewFileHash(st: Store, f: int, size: int, a: Attributes, slave: Slave)
    requires f !in st.stat
    ensures HGetStat(SetFileStat(st, f, size, a, slave), f) ==
      map["st_mode" := Num(33279), "st_size" := Num(size), "st_uid" := Num(a.uid), "st_gid" := Num(a.gid),
          "st_mtime" := Num(a.now), "slave_host" := Text(slave.host), "slave_port" := Num(slave.port)]
  {
  }

  /** What the steps of a run do: each is its operation. */
  lemma StepsResolve(st: Store, pending: set<int>, op: Op)
    requires Inv(st, pending) && Legal(st, pending, op) && Run(st, op).Done? && Run(st, op).code >= 0
    ensures op.NewFidOp? ==> Run(st, op).code == Run(st, op).st.counter == st.counter + 1
    ensures op.MkdirOp? ==>
      Walk(Run(st, op).st, 0, Names(op.path)) == At(st.counter + 1) && IsDir(Run(st, op).st, st.counter + 1)
    ensures op.SaveOp? ==>
      Walk(Run(st, op).st, 0, Names(op.path)) == At(op.fid) && IsFile(Run(st, op).st, op.fid)
      && SlaveOf(Run(st, op).st, op.fid) == op.slave && StatOf(Run(st, op).st, op.fid).size == op.size
    ensures op.RemoveOp? || op.RmdirOp? ==> Walk(Run(st, op).st, 0, Names(op.path)) == Missing
    ensures op.RenameOp? && op.path != op.newPath && SameParent(op.path, op.newPath) ==>
      Walk(Run(st, op).st, 0, Names(op.newPath)) == Walk(st, 0, Names(op.path))
      && Walk(Run(st, op).st, 0, Names(op.path)) == Missing
  {
    match op {
      case NewFidOp =>
      case MkdirOp(path, a) => MkdirResolution(st, pending, path, a);
      case SaveOp(path, size, a, fid, slave) => SaveResolution(st, pending, path, size, a, fid, slave);
      case RemoveOp(path) => RemoveResolution(st, pending, path);
      case RenameOp(path, newPath) =>
        if path != newPath && SameParent(path, newPath) { RenamedResolves(st, pending, path, newPath); }
      case RmdirOp(path) =>
        RmdirIsRemove(st, pending, path);
        PathIsNames(st, path);
        RemoveResolution(st, pending, path);
    }
  }

  lemma RenamedResolves(st: Store, pending: set<int>, path: string, newPath: string)
    requires Inv(st, pending) && Editable(path) && DirParent(st, path)
    requires Editable(newPath) && SameParent(path, newPath) && path != newPath
    ensures Rooted(path)
    ensures var r := Rename(st, path, newPath);
      r.Done? && (r.code == 0 ==>
        Walk(r.st, 0, Names(newPath)) == Walk(st, 0, Names(path)) && Walk(r.st, 0, Names(path)) == Missing)
  {
    RenameMoves(st, pending, path, newPath);
    assert Names(newPath) + [] == Names(newPath) && Names(path) + [] == Names(path);
  }

  /** Which operations are legal, spelled out: any on a path that is normal, not the root and
      not named like a marker, below a directory or nothing; DELE on no directory, and a save
      with a fid that is pending. */
  lemma LegalSpelledOut(st: Store, pending: set<int>, path: string, newPath: string, a: Attributes, size: int,
                        fid: int, slave: Slave)
    requires IsNormal(path) && path != "/" && IsNormal(newPath) && newPath != "/"
    requires Last(Names(path)) != ".foo" && Last(Names(path)) != ".placeholder"
    requires Last(Names(newPath)) != ".foo" && Last(Names(newPath)) != ".placeholder"
    requires var w := Walk(st, 0, Front(Names(path))); w.Missing? || (w.At? && w.fid in st.dirent)
    ensures Legal(st, pending, NewFidOp) && Legal(st, pending, MkdirOp(path, a))
    ensures Legal(st, pending, RenameOp(path, newPath)) && Legal(st, pending, RmdirOp(path))
    ensures Legal(st, pending, SaveOp(path, size, a, fid, slave)) <==> fid in pending
    ensures Legal(st, pending, RemoveOp(path)) <==>
      var w := Walk(st, 0, Names(path)); w.At? ==> IsFile(st, w.fid)
  {
  }

  // ---- rename within one directory ------------------------------------------------------

  ghost predicate SameParent(path: string, newPath: string)
    requires Editable(path) && Editable(newPath)
  {
    Front(Names(path)) == Front(Names(newPath))
  }

  /** A rename within one directory moves a whole subtree: new/s is what old/s was,
      nothing is left at or below old, and paths outside both are untouched. */
  lemma RenameMoves(st: Store, pending: set<int>, path: string, newPath: string)
    requires Inv(st, pending) && Editable(path) && DirParent(st, path)
    requires Editable(newPath) && SameParent(path, newPath)
    ensures Rooted(path)
    ensures var r := Rename(st, path, newPath);
      r.Done? && (r.code == 0 ==>
        && (forall s :: Walk(r.st, 0, Names(newPath) + s) == Walk(st, 0, Names(path) + s))
        && (path != newPath ==> forall s :: Walk(r.st, 0, Names(path) + s) == Missing)
        && (forall q :: !Below(Names(path), q) && !Below(Names(newPath), q) ==>
              Walk(r.st, 0, q) == Walk(st, 0, q)))
  {
    LegalRename(st, pending, path, newPath);
    var p, n, m := Front(Names(path)), Last(Names(path)), Last(Names(newPath));
    NormalIsAbsolute(path);
    assert Names(path) == p + [n] && Names(newPath) == p + [m];
    if path != newPath { assert n != m; }
    var parent := Walk(st, 0, p);
    if parent.At? && HasSlot(st, parent.fid, n) && Slot(st, parent.fid, n) >= 0 {
      SubtreeMoved(st, Rename(st, path, newPath).st, p, parent.fid, n, m);
    }
  }

  lemma SubtreeMoved(st: Store, made: Store, p: seq<string>, d: int, n: string, m: string)
    requires TreeInv(st) && Walk(st, 0, p) == At(d) && HasSlot(st, d, n)
    requires made.dirent == st.dirent[d := (st.dirent[d] - {n})[m := Slot(st, d, n)]]
    ensures forall s :: Walk(made, 0, p + [m] + s) == Walk(st, 0, p + [n] + s)
    ensures n != m ==> forall s :: Walk(made, 0, p + [n] + s) == Missing
    ensures forall q :: !Below(p + [n], q) && !Below(p + [m], q) ==> Walk(made, 0, q) == Walk(st, 0, q)
  {
    RenameEdits(st, made, d, n, m);
    SlotMoved(st, made, p, d, n, m);
  }

  lemma SlotMoved(st: Store, made: Store, p: seq<string>, d: int, n: string, m: string)
    requires TreeInv(st) && Walk(st, 0, p) == At(d) && EditedAt(st, made, d, {n, m})
    requires HasSlot(st, d, n) && Walk(made, d, [m]) == At(Slot(st, d, n))
    requires n != m ==> Walk(made, d, [n]) == Missing
    ensures forall s :: Walk(made, 0, p + [m] + s) == Walk(st, 0, p + [n] + s)
    ensures n != m ==> forall s :: Walk(made, 0, p + [n] + s) == Missing
    ensures forall q :: !Below(p + [n], q) && !Below(p + [m], q) ==> Walk(made, 0, q) == Walk(st, 0, q)
  {
    EditFrame(st, made, p, d, {n, m}, p);
    WalkConcat(st, 0, p, [n]);
    WalkConcat(made, 0, p, [m]);
    WalkConcat(made, 0, p, [n]);
    assert [n][1..] == [];
    forall s
      ensures Walk(made, 0, p + [m] + s) == Walk(st, 0, p + [n] + s)
    {
      SubtreeFrame(st, made, p, d, {n, m}, p + [n], s);
      WalkConcat(st, 0, p + [n], s);
      WalkConcat(made, 0, p + [m], s);
    }
    forall s
      ensures n != m ==> Walk(made, 0, p + [n] + s) == Missing
    {
      WalkConcat(made, 0, p + [n], s);
    }
    forall q | !Below(p + [n], q) && !Below(p + [m], q)
      ensures Walk(made, 0, q) == Walk(st, 0, q)
    {
      EditFrame(st, made, p, d, {n, m}, q);
    }
  }

  lemma RenameEdits(st: Store, made: Store, d: int, n: string, m: string)
    requires TreeInv(st) && HasSlot(st, d, n)
    requires made.dirent == st.dirent[d := (st.dirent[d] - {n})[m := Slot(st, d, n)]]
    ensures EditedAt(st, made, d, {n, m})
    ensures Walk(made, d, [m]) == At(Slot(st, d, n))
    ensures n != m ==> Walk(made, d, [n]) == Missing
  {
    assert m in HGetAll(made, d);
    assert [m][1..] == [] && [n][1..] == [];
  }
}
