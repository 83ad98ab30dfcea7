// The tree invariant of the virtual file system and its preservation by every
// operation, over every run from the store InitRedis leaves behind.

module VfsInvariant {
  import opened Paths
  import opened Vfs

  const RESERVED: set<string> := {".foo", ".placeholder"}

  /** The reserved entry that keeps the hash of directory d non-empty. */
  function Marker(d: int): string {
    if d == 0 then ".foo" else ".placeholder"
  }

  ghost predicate HasSlot(st: Store, d: int, n: string) {
    d in st.dirent && n in st.dirent[d]
  }

  ghost function Slot(st: Store, d: int, n: string): int
    requires HasSlot(st, d, n)
  {
    st.dirent[d][n]
  }

  /** Directory hashes belong to directories, hold their marker and so are never empty. */
  ghost predicate DirsMarked(st: Store) {
    && 0 in st.dirent
    && forall d :: d in st.dirent ==>
         IsDir(st, d) && HasSlot(st, d, Marker(d)) && Slot(st, d, Marker(d)) == -1
  }

  /** Every stat record belongs to a fid handed out, and is a directory with a hash
      or a file without one. */
  ghost predicate StatsKnown(st: Store) {
    forall f :: f in st.stat ==>
      0 <= f <= st.counter && (IsDir(st, f) || IsFile(st, f)) && (IsDir(st, f) <==> f in st.dirent)
  }

  /** A negative entry is a reserved one; any other is not the root and has a stat record. */
  ghost predicate KnownEntry(st: Store, n: string, f: int) {
    if f < 0 then f == -1 && n in RESERVED else f != 0 && f in st.stat
  }

  ghost predicate SlotsKnown(st: Store) {
    forall d, n :: HasSlot(st, d, n) ==> KnownEntry(st, n, Slot(st, d, n))
  }

  ghost predicate SlotsUnique(st: Store) {
    forall d, n, e, m :: HasSlot(st, d, n) && HasSlot(st, e, m) && Slot(st, d, n) >= 0 ==>
      Slot(st, d, n) != Slot(st, e, m) || (d == e && n == m)
  }

  ghost predicate TreeInv(st: Store) {
    DirsMarked(st) && StatsKnown(st) && SlotsKnown(st) && SlotsUnique(st)
  }

  /** Fids handed out by get_new_fid for uploads that are not saved yet. */
  ghost predicate PendingFresh(st: Store, pending: set<int>) {
    forall f :: f in pending ==> 0 < f <= st.counter && f !in st.stat
  }

  ghost predicate Inv(st: Store, pending: set<int>) {
    TreeInv(st) && PendingFresh(st, pending)
  }

  // ---- Operations as steps ------------------------------------------------------

  datatype Op =
    | MkdirOp(path: string, a: Attributes)
    | NewFidOp
    | SaveOp(path: string, size: int, a: Attributes, fid: int, slave: Slave)
    | RemoveOp(path: string)
    | RenameOp(path: string, newPath: string)
    | RmdirOp(path: string)

  /** A non-root normal path whose last name is not a reserved one. */
  ghost predicate Editable(path: string) {
    IsNormal(path) && path != "/" && Last(Names(path)) !in RESERVED
  }

  /** The parent of the path is a directory, or does not exist. */
  ghost predicate DirParent(st: Store, path: string)
    requires Editable(path)
  {
    var parent := Walk(st, 0, Front(Names(path)));
    parent.Missing? || (parent.At? && parent.fid in st.dirent)
  }

  ghost predicate Legal(st: Store, pending: set<int>, op: Op) {
    match op
    case NewFidOp => true
    case MkdirOp(path, _) => Editable(path) && DirParent(st, path)
    case SaveOp(path, _, _, fid, _) => Editable(path) && DirParent(st, path) && fid in pending
    case RemoveOp(path) => Editable(path) && DirParent(st, path)
      && (var w := Walk(st, 0, Names(path)); w.At? ==> IsFile(st, w.fid))
    case RenameOp(path, newPath) => Editable(path) && DirParent(st, path) && Editable(newPath)
    case RmdirOp(path) => Editable(path) && DirParent(st, path)
  }

  lemma EditableIsRooted(path: string)
    requires Editable(path)
    ensures Rooted(path)
  {
    NormalIsAbsolute(path);
  }

  ghost function Run(st: Store, op: Op): Outcome
    requires op.NewFidOp? || Editable(op.path)
  {
    if !op.NewFidOp? then EditableIsRooted(op.path); RunOn(st, op) else Done(Incr(st), st.counter + 1)
  }

  ghost function RunOn(st: Store, op: Op): Outcome
    requires !op.NewFidOp? && Rooted(op.path)
  {
    match op
    case MkdirOp(path, a) => Mkdir(st, path, a)
    case SaveOp(path, size, a, fid, slave) => SaveNewFile(st, path, size, a, fid, slave)
    case RemoveOp(path) => Remove(st, path)
    case RenameOp(path, newPath) => Rename(st, path, newPath)
    case RmdirOp(path) => Rmdir(st, path)
  }

  ghost function PendingAfter(st: Store, pending: set<int>, op: Op): set<int> {
    match op
    case NewFidOp => pending + {st.counter + 1}
    case SaveOp(_, _, _, fid, _) => pending - {fid}
    case _ => pending
  }

  // ---- What a legal operation sees --------------------------------------------

  /** In a directory a walk of one more name is one look into its hash. */
  lemma {:induction false} WalkConcat(st: Store, f: int, a: seq<string>, b: seq<string>)
    ensures Walk(st, f, a + b) ==
      match Walk(st, f, a) { case At(g) => Walk(st, g, b) case w => w }
    decreases |a|
  {
    if a == [] {
      assert a + b == b;
    } else {
      assert (a + b)[1..] == a[1..] + b;
      var hash := HGetAll(st, f);
      if a[0] in hash {
        WalkConcat(st, hash[a[0]], a[1..], b);
      }
    }
  }

  lemma {:induction false} WalkLast(st: Store, names: seq<string>)
    requires names != []
    ensures Walk(st, 0, names) ==
      match Walk(st, 0, Front(names))
        case At(d) => Walk(st, d, [Last(names)])
        case w => w
  {
    assert names == Front(names) + [Last(names)];
    WalkConcat(st, 0, Front(names), [Last(names)]);
  }

  /** A walk that arrives with a fid arrives at the root or through a slot. */
  lemma WalkArrives(st: Store, names: seq<string>)
    requires TreeInv(st) && names != [] && Walk(st, 0, names).At?
    ensures var parent := Walk(st, 0, Front(names));
      parent.At? && parent.fid >= 0 && HasSlot(st, parent.fid, Last(names))
      && Slot(st, parent.fid, Last(names)) == Walk(st, 0, names).fid
  {
    WalkLast(st, names);
    var parent := Walk(st, 0, Front(names));
    assert [Last(names)][1..] == [];
    assert parent.fid in st.dirent;
  }

  /** A fid that a walk arrives with has a stat record. */
  lemma ArrivesKnown(st: Store, names: seq<string>)
    requires TreeInv(st) && Walk(st, 0, names).At? && Walk(st, 0, names).fid >= 0
    ensures Walk(st, 0, names).fid in st.stat
  {
    if names != [] { WalkArrives(st, names); }
  }

  lemma StepInto(st: Store, d: int, n: string)
    requires d in st.dirent && st.dirent[d] != map[]
    ensures Walk(st, d, [n]) == if n in st.dirent[d] then At(st.dirent[d][n]) else Missing
  {
    assert [n][1..] == [];
  }

  /** The two lookups of an operation on a legal path: they end, and the path
      itself is the entry of its last name in the hash of its parent. */
  lemma LegalLookups(st: Store, path: string)
    requires TreeInv(st) && Editable(path) && DirParent(st, path)
    ensures Rooted(path) && Entry(path) == Last(Names(path))
    ensures Lookup(st, ParentPath(path)) == Walk(st, 0, Front(Names(path)))
    ensures Lookup(Incr(st), ParentPath(path)) == Walk(st, 0, Front(Names(path)))
    ensures Lookup(st, path) == Walk(st, 0, Names(path))
    ensures var parent := Walk(st, 0, Front(Names(path)));
      Lookup(st, path) ==
        if parent.At? && Entry(path) in st.dirent[parent.fid]
        then At(st.dirent[parent.fid][Entry(path)]) else Missing
  {
    PathIsNames(st, path);
    PathIsNames(Incr(st), path);
    WalkIgnoresCounter(st, 0, Front(Names(path)));
    WalkLast(st, Names(path));
    var parent := Walk(st, 0, Front(Names(path)));
    if parent.At? {
      assert HasSlot(st, parent.fid, Marker(parent.fid));
      StepInto(st, parent.fid, Entry(path));
    }
  }

  lemma {:induction false} WalkIgnoresCounter(st: Store, f: int, names: seq<string>)
    ensures Walk(Incr(st), f, names) == Walk(st, f, names)
    decreases |names|
  {
    if names != [] && names[0] in HGetAll(st, f) {
      WalkIgnoresCounter(st, HGetAll(st, f)[names[0]], names[1..]);
    }
  }

  // ---- Preservation ----------------------------------------------------------------

  /** The two stores have the same stat records, fid f apart. */
  ghost predicate StatsAgreeBut(st: Store, made: Store, f: int) {
    forall g :: g != f ==> (g in st.stat <==> g in made.stat) && HGetStat(st, g) == HGetStat(made, g)
  }

  lemma SetFileStatFrame(st: Store, f: int, size: int, a: Attributes, slave: Slave)
    ensures var made := SetFileStat(st, f, size, a, slave);
      && made.dirent == st.dirent && made.counter == st.counter
      && StatsAgreeBut(st, made, f) && f in made.stat
  {
  }

  /** What stat and lookup_slave_info read back of a new file is what was written. */
  lemma SetFileStatFacts(st: Store, f: int, size: int, a: Attributes, slave: Slave)
    ensures var made := SetFileStat(st, f, size, a, slave);
      && made.dirent == st.dirent && made.counter == st.counter
      && StatsAgreeBut(st, made, f) && f in made.stat
      && StatOf(made, f) == FileStat(FILE_MODE, size, a.uid, a.gid, a.now) && SlaveOf(made, f) == slave
  {
    SetFileStatFrame(st, f, size, a, slave);
    FileHashReads(HGetStat(st, f), size, a, slave);
    assert HGetStat(SetFileStat(st, f, size, a, slave), f) == FileHash(HGetStat(st, f), size, a, slave);
  }

  function FileHash(hash: map<string, Value>, size: int, a: Attributes, slave: Slave): map<string, Value> {
    hash["st_mode" := Num(FILE_MODE)]["st_size" := Num(size)]["st_uid" := Num(a.uid)]["st_gid" := Num(a.gid)]
      ["st_mtime" := Num(a.now)]["slave_host" := Text(slave.host)]["slave_port" := Num(slave.port)]
  }

  lemma FileHashReads(hash: map<string, Value>, size: int, a: Attributes, slave: Slave)
    ensures var h := FileHash(hash, size, a, slave);
      && NumField(h, "st_mode") == FILE_MODE && NumField(h, "st_size") == size
      && NumField(h, "st_uid") == a.uid && NumField(h, "st_gid") == a.gid && NumField(h, "st_mtime") == a.now
      && "slave_host" in h && h["slave_host"] == Text(slave.host) && NumField(h, "slave_port") == slave.port
  {
  }

  lemma SetDirStatFacts(st: Store, f: int, a: Attributes)
    ensures var made := SetDirStat(st, f, a);
      && made.dirent == st.dirent && made.counter == st.counter
      && StatsAgreeBut(st, made, f) && f in made.stat
      && StatOf(made, f) == FileStat(DIR_MODE, 4096, a.uid, a.gid, a.now)
  {
  }

  lemma IncrKeepsInv(st: Store, pending: set<int>)
    requires Inv(st, pending)
    ensures Inv(Incr(st), pending) && Inv(Incr(st), pending + {st.counter + 1})
  {
    assert forall f :: Mode(Incr(st), f) == Mode(st, f);
    forall e, m | HasSlot(Incr(st), e, m)
      ensures HasSlot(st, e, m) && Slot(st, e, m) == Slot(Incr(st), e, m)
    {}
  }

  /** A fresh regular file put into slot (d, n). */
  lemma SaveKeepsInv(st: Store, made: Store, pending: set<int>, d: int, n: string, fid: int)
    requires Inv(st, pending) && d in st.dirent && n != Marker(d) && fid in pending
    requires made.dirent == st.dirent[d := st.dirent[d][n := fid]] && made.counter == st.counter
    requires StatsAgreeBut(st, made, fid) && fid in made.stat && Mode(made, fid) == FILE_MODE
    ensures Inv(made, pending - {fid})
  {
    assert forall g :: g != fid ==> Mode(made, g) == Mode(st, g);
    forall e, m | HasSlot(made, e, m)
      ensures (e == d && m == n && Slot(made, e, m) == fid)
        || (HasSlot(st, e, m) && Slot(st, e, m) == Slot(made, e, m) && Slot(st, e, m) != fid)
    {}
  }

  /** A fresh directory put into slot (d, n). */
  lemma MkdirKeepsInv(st: Store, made: Store, pending: set<int>, d: int, n: string, fid: int)
    requires Inv(st, pending) && d in st.dirent && n != Marker(d) && fid == st.counter + 1
    requires made.dirent == st.dirent[d := st.dirent[d][n := fid]][fid := map[".placeholder" := -1]]
    requires made.counter == fid
    requires StatsAgreeBut(st, made, fid) && fid in made.stat && Mode(made, fid) == DIR_MODE
    ensures Inv(made, pending)
  {
    assert fid !in st.stat && fid !in st.dirent && d != fid;
    assert forall g :: g != fid ==> Mode(made, g) == Mode(st, g);
    assert HasSlot(made, fid, ".placeholder");
    forall e, m | HasSlot(made, e, m)
      ensures (e == d && m == n && Slot(made, e, m) == fid) || (e == fid && m == ".placeholder")
        || (HasSlot(st, e, m) && Slot(st, e, m) == Slot(made, e, m) && Slot(st, e, m) != fid)
    {}
  }

  /** A regular file taken out of slot (d, n). */
  lemma RemoveKeepsInv(st: Store, pending: set<int>, d: int, n: string)
    requires Inv(st, pending) && HasSlot(st, d, n) && IsFile(st, Slot(st, d, n))
    ensures Inv(DelStat(HDel(st, d, n), Slot(st, d, n)), pending)
  {
    var f := Slot(st, d, n);
    var gone := DelStat(HDel(st, d, n), f);
    assert HasSlot(st, d, Marker(d));
    assert Marker(d) in st.dirent[d] - {n};
    assert gone.dirent == st.dirent[d := st.dirent[d] - {n}];
    forall g | g in gone.stat
      ensures g in st.stat && gone.stat[g] == st.stat[g]
    {}
    forall e, m | HasSlot(gone, e, m)
      ensures HasSlot(st, e, m) && Slot(st, e, m) == Slot(gone, e, m) && !(e == d && m == n)
    {}
  }

  /** A fid moved from slot (d, n) to slot (d, m). */
  lemma RenameKeepsInv(st: Store, pending: set<int>, d: int, n: string, m: string)
    requires Inv(st, pending) && HasSlot(st, d, n) && Slot(st, d, n) >= 0
    requires m != Marker(d)
    ensures Inv(HSet(HDel(st, d, n), d, m, Slot(st, d, n)), pending)
  {
    var f := Slot(st, d, n);
    var moved := HSet(HDel(st, d, n), d, m, f);
    assert HasSlot(st, d, Marker(d));
    assert Marker(d) in st.dirent[d] - {n};
    assert moved.dirent == st.dirent[d := (st.dirent[d] - {n})[m := f]];
    assert forall g :: Mode(moved, g) == Mode(st, g);
    forall e, k | HasSlot(moved, e, k)
      ensures (e == d && k == m) || (HasSlot(st, e, k) && Slot(st, e, k) == Slot(moved, e, k) && !(e == d && k == n))
    {}
  }

  lemma LegalMkdir(st: Store, pending: set<int>, path: string, a: Attributes)
    requires Inv(st, pending) && Editable(path) && DirParent(st, path)
    ensures Rooted(path)
    ensures var r := Mkdir(st, path, a); r.Done? && Inv(r.st, pending) && StatsAgreeBut(st, r.st, st.counter + 1)
    ensures var r := Mkdir(st, path, a);
      var parent := Walk(st, 0, Front(Names(path)));
      var fid := st.counter + 1;
      if parent.At? then
        r.code == 0 && IsDir(r.st, fid) && r.st.counter == fid
        && StatOf(r.st, fid) == FileStat(DIR_MODE, 4096, a.uid, a.gid, a.now)
        && r.st.dirent ==
             st.dirent[parent.fid := st.dirent[parent.fid][Last(Names(path)) := fid]][fid := map[".placeholder" := -1]]
      else r.code == -1 && r.st == Incr(st)
  {
    LegalLookups(st, path);
    var parent := Walk(st, 0, Front(Names(path)));
    if parent.At? {
      var up := Incr(st);
      var fid := up.counter;
      assert fid !in st.stat && fid !in st.dirent;
      SetDirStatFacts(up, fid, a);
      MkdirKeepsInv(st, Mkdir(st, path, a).st, pending, parent.fid, Entry(path), fid);
    } else {
      IncrKeepsInv(st, pending);
    }
  }

  lemma LegalSave(st: Store, pending: set<int>, path: string, size: int, a: Attributes, fid: int, slave: Slave)
    requires Inv(st, pending) && Editable(path) && DirParent(st, path) && fid in pending
    ensures Rooted(path)
    ensures var r := SaveNewFile(st, path, size, a, fid, slave); r.Done? && Inv(r.st, pending - {fid})
    ensures var r := SaveNewFile(st, path, size, a, fid, slave);
      var parent := Walk(st, 0, Front(Names(path)));
      if parent.At? then
        r.code == 0 && r.st.dirent == st.dirent[parent.fid := st.dirent[parent.fid][Entry(path) := fid]]
        && StatsAgreeBut(st, r.st, fid) && IsFile(r.st, fid) && r.st.counter == st.counter
        && StatOf(r.st, fid) == FileStat(FILE_MODE, size, a.uid, a.gid, a.now) && SlaveOf(r.st, fid) == slave
      else r.code == -1 && r.st == st
  {
    LegalLookups(st, path);
    var parent := Walk(st, 0, Front(Names(path)));
    if parent.At? {
      SetFileStatFacts(HSet(st, parent.fid, Entry(path), fid), fid, size, a, slave);
      SaveKeepsInv(st, SaveNewFile(st, path, size, a, fid, slave).st, pending, parent.fid, Entry(path), fid);
    }
  }

  lemma LegalRemove(st: Store, pending: set<int>, path: string)
    requires Inv(st, pending) && Legal(st, pending, RemoveOp(path))
    ensures Rooted(path)
    ensures var r := Remove(st, path); r.Done? && Inv(r.st, pending)
    ensures var r := Remove(st, path);
      var parent := Walk(st, 0, Front(Names(path)));
      var n := Last(Names(path));
      if parent.At? && HasSlot(st, parent.fid, n) && Slot(st, parent.fid, n) >= 0 then
        r.code == 0 && r.st.dirent == st.dirent[parent.fid := st.dirent[parent.fid] - {n}]
        && r.st.stat == st.stat - {Slot(st, parent.fid, n)} && r.st.counter == st.counter
        && Lookup(st, path) == At(Slot(st, parent.fid, n))
      else r.code == -1 && r.st == st
  {
    LegalLookups(st, path);
    var parent := Walk(st, 0, Front(Names(path)));
    if parent.At? && HasSlot(st, parent.fid, Entry(path)) && Slot(st, parent.fid, Entry(path)) >= 0 {
      assert HasSlot(st, parent.fid, Marker(parent.fid));
      assert Marker(parent.fid) in st.dirent[parent.fid] - {Entry(path)};
      RemoveKeepsInv(st, pending, parent.fid, Entry(path));
    }
  }

  lemma LegalRename(st: Store, pending: set<int>, path: string, newPath: string)
    requires Inv(st, pending) && Editable(path) && DirParent(st, path) && Editable(newPath)
    ensures Rooted(path)
    ensures var r := Rename(st, path, newPath); r.Done? && Inv(r.st, pending)
    ensures var r := Rename(st, path, newPath);
      var parent := Walk(st, 0, Front(Names(path)));
      var n, m := Last(Names(path)), Last(Names(newPath));
      if parent.At? && HasSlot(st, parent.fid, n) && Slot(st, parent.fid, n) >= 0 then
        r.code == 0 && r.st.stat == st.stat && r.st.counter == st.counter
        && r.st.dirent == st.dirent[parent.fid := (st.dirent[parent.fid] - {n})[m := Slot(st, parent.fid, n)]]
      else r.code == -1 && r.st == st
  {
    LegalLookups(st, path);
    PathIsNames(st, newPath);
    var parent := Walk(st, 0, Front(Names(path)));
    if parent.At? && HasSlot(st, parent.fid, Entry(path)) && Slot(st, parent.fid, Entry(path)) >= 0 {
      assert HasSlot(st, parent.fid, Marker(parent.fid));
      assert Marker(parent.fid) in st.dirent[parent.fid] - {Entry(path)};
      RenameKeepsInv(st, pending, parent.fid, Entry(path), Entry(newPath));
    }
  }

  /** rmdir succeeds on nothing but regular files, and then does what remove does. */
  lemma RmdirIsRemove(st: Store, pending: set<int>, path: string)
    requires Inv(st, pending) && IsNormal(path)
    ensures Rooted(path)
    ensures var w := Lookup(st, path);
      Rmdir(st, path) == if w.Spins? then Hangs
                         else if w.At? && w.fid >= 0 && IsFile(st, w.fid) then Remove(st, path)
                         else Done(st, -1)
    ensures Editable(path) && DirParent(st, path) ==>
      Rmdir(st, path).Done?
      && (Rmdir(st, path).code == 0 <==> Lookup(st, path).At? && IsFile(st, Lookup(st, path).fid))
  {
    PathIsNames(st, path);
    if Editable(path) && DirParent(st, path) { LegalLookups(st, path); }
    var w := Lookup(st, path);
    if w.At? && w.fid >= 0 {
      ArrivesKnown(st, Names(path));
      assert w.fid in st.dirent ==> HasSlot(st, w.fid, Marker(w.fid));
      assert HGetAll(st, w.fid) == map[] <==> IsFile(st, w.fid);
    }
  }

  lemma LegalRmdir(st: Store, pending: set<int>, path: string)
    requires Inv(st, pending) && Editable(path) && DirParent(st, path)
    ensures Rooted(path)
    ensures var r := Rmdir(st, path);
      r.Done? && Inv(r.st, pending) && r.st.counter == st.counter
      && (forall f :: f in r.st.stat ==> f in st.stat && r.st.stat[f] == st.stat[f])
  {
    RmdirIsRemove(st, pending, path);
    PathIsNames(st, path);
    if Rmdir(st, path).code == 0 { LegalRemove(st, pending, path); }
  }

  /** Every legal operation returns and keeps the invariant. */
  lemma LegalOp(st: Store, pending: set<int>, op: Op)
    requires Inv(st, pending) && Legal(st, pending, op)
    ensures var r := Run(st, op); r.Done? && Inv(r.st, PendingAfter(st, pending, op))
  {
    match op {
      case NewFidOp =>
        IncrKeepsInv(st, pending);
      case MkdirOp(path, a) =>
        LegalMkdir(st, pending, path, a);
      case SaveOp(path, size, a, fid, slave) =>
        LegalSave(st, pending, path, size, a, fid, slave);
      case RemoveOp(path) =>
        LegalRemove(st, pending, path);
      case RenameOp(path, newPath) =>
        LegalRename(st, pending, path, newPath);
      case RmdirOp(path) =>
        LegalRmdir(st, pending, path);
    }
  }

  // ---- Runs -------------------------------------------------------------------------

  ghost predicate LegalRun(st: Store, pending: set<int>, ops: seq<Op>)
    decreases |ops|
  {
    ops != [] ==>
      Legal(st, pending, ops[0])
      && (Run(st, ops[0]).Done? ==>
            LegalRun(Run(st, ops[0]).st, PendingAfter(st, pending, ops[0]), ops[1..]))
  }

  /** The store and the pending fids after a run; an operation that hangs ends it. */
  ghost function After(st: Store, pending: set<int>, ops: seq<Op>): (Store, set<int>)
    requires LegalRun(st, pending, ops)
    decreases |ops|
  {
    if ops == [] || Run(st, ops[0]).Hangs? then (st, pending)
    else After(Run(st, ops[0]).st, PendingAfter(st, pending, ops[0]), ops[1..])
  }

  lemma {:induction false} RunKeepsInv(st: Store, pending: set<int>, ops: seq<Op>)
    requires Inv(st, pending) && LegalRun(st, pending, ops)
    ensures var (end, left) := After(st, pending, ops); Inv(end, left)
    decreases |ops|
  {
    if ops != [] {
      LegalOp(st, pending, ops[0]);
      RunKeepsInv(Run(st, ops[0]).st, PendingAfter(st, pending, ops[0]), ops[1..]);
    }
  }

  lemma InitHoldsInv(now: int)
    ensures Inv(InitRedis(now), {})
  {
    var st := InitRedis(now);
    assert st.stat[0]["st_mode"] == Num(DIR_MODE);
    assert Mode(st, 0) == DIR_MODE;
    assert HasSlot(st, 0, ".foo");
  }

  ghost predicate Reachable(st: Store, pending: set<int>) {
    exists now: int, ops: seq<Op> ::
      LegalRun(InitRedis(now), {}, ops) && After(InitRedis(now), {}, ops) == (st, pending)
  }

  /** What can be reached, spelled out: the store InitRedis leaves, and what a legal operation
      makes of what can be reached. */
  lemma ReachableGoesOn(st: Store, pending: set<int>, op: Op, now: int)
    ensures Reachable(InitRedis(now), {})
    ensures Reachable(st, pending) && Legal(st, pending, op) ==>
      Run(st, op).Done? && Reachable(Run(st, op).st, PendingAfter(st, pending, op))
  {
    assert LegalRun(InitRedis(now), {}, []) && After(InitRedis(now), {}, []) == (InitRedis(now), {});
    if Reachable(st, pending) && Legal(st, pending, op) {
      var first: int, ops :| LegalRun(InitRedis(first), {}, ops) && After(InitRedis(first), {}, ops) == (st, pending);
      InitHoldsInv(first);
      RunKeepsInv(InitRedis(first), {}, ops);
      LegalOp(st, pending, op);
      RunExtends(InitRedis(first), {}, ops, op);
    }
  }

  lemma {:induction false} RunExtends(st: Store, pending: set<int>, ops: seq<Op>, op: Op)
    requires Inv(st, pending) && LegalRun(st, pending, ops)
    requires var (end, left) := After(st, pending, ops); Legal(end, left, op) && Run(end, op).Done?
    ensures LegalRun(st, pending, ops + [op])
    ensures var (end, left) := After(st, pending, ops);
      After(st, pending, ops + [op]) == (Run(end, op).st, PendingAfter(end, left, op))
    decreases |ops|
  {
    if ops == [] {
      assert ops + [op] == [op] && [op][1..] == [];
    } else {
      LegalOp(st, pending, ops[0]);
      assert (ops + [op])[0] == ops[0] && (ops + [op])[1..] == ops[1..] + [op];
      RunExtends(Run(st, ops[0]).st, PendingAfter(st, pending, ops[0]), ops[1..], op);
    }
  }

  /** The slot invariant of every store a run can reach: a non-negative entry sits
      in one slot only, is not 0, was handed out and has a stat record; and no
      directory hash is empty. */
  lemma ReachableTree(st: Store, pending: set<int>)
    requires Reachable(st, pending)
    ensures Inv(st, pending)
    ensures forall d, n :: HasSlot(st, d, n) && Slot(st, d, n) >= 0 ==>
      0 < Slot(st, d, n) <= st.counter && Slot(st, d, n) in st.stat
    ensures forall d, n, e, m :: HasSlot(st, d, n) && HasSlot(st, e, m) && Slot(st, d, n) >= 0 ==>
      Slot(st, d, n) != Slot(st, e, m) || (d == e && n == m)
    ensures forall d, n :: HasSlot(st, d, n) && Slot(st, d, n) < 0 ==>
      Slot(st, d, n) == -1 && (n == ".foo" || n == ".placeholder")
    ensures forall d :: IsDir(st, d) ==> HGetAll(st, d) != map[]
  {
    var now: int, ops: seq<Op> :|
      LegalRun(InitRedis(now), {}, ops) && After(InitRedis(now), {}, ops) == (st, pending);
    InitHoldsInv(now);
    RunKeepsInv(InitRedis(now), {}, ops);
    forall d | IsDir(st, d)
      ensures HGetAll(st, d) != map[]
    {
      assert HasSlot(st, d, Marker(d));
    }
  }
}
