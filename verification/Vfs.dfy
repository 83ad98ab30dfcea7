// The virtual file system of redis_vfs, as functions over the Redis hashes it
// keeps: dirent:<fid> maps names to fids, stat:<fid> holds the attributes of a
// fid, and fid_counter is the last fid handed out.  A hash without fields does
// not exist in Redis, so the hash of an absent key is empty.

module Vfs {
  import opened Fields
  import opened Paths

  datatype Value = Num(n: int) | Text(s: string)

  datatype Slave = Slave(host: string, port: int)

  datatype Attributes = Attributes(uid: int, gid: int, now: int)

  datatype Store = Store(
    dirent: map<int, map<string, int>>,
    stat: map<int, map<string, Value>>,
    counter: int)

  const DIR_MODE := 16895
  const FILE_MODE := 33279

  // ---- Redis commands --------------------------------------------------------

  function HGetAll(st: Store, d: int): map<string, int> {
    if d in st.dirent then st.dirent[d] else map[]
  }

  function HGetStat(st: Store, f: int): map<string, Value> {
    if f in st.stat then st.stat[f] else map[]
  }

  function HSet(st: Store, d: int, name: string, fid: int): Store {
    st.(dirent := st.dirent[d := HGetAll(st, d)[name := fid]])
  }

  function HDel(st: Store, d: int, name: string): Store {
    var rest := HGetAll(st, d) - {name};
    if d !in st.dirent then st
    else if rest == map[] then st.(dirent := st.dirent - {d})
    else st.(dirent := st.dirent[d := rest])
  }

  function HSetStat(st: Store, f: int, field: string, v: Value): Store {
    st.(stat := st.stat[f := HGetStat(st, f)[field := v]])
  }

  function DelStat(st: Store, f: int): Store {
    st.(stat := st.stat - {f})
  }

  function Incr(st: Store): Store {
    st.(counter := st.counter + 1)
  }

  // ---- lookup_fid --------------------------------------------------------------

  /** Where a walk ends: at an entry (whose fid may be the -1 of a reserved entry),
      at a name its directory does not have, or nowhere: an empty hash is asked for
      again for ever. */
  datatype Walked = At(fid: int) | Missing | Spins

  /** What lookup_fid returns when it returns. */
  function Code(w: Walked): int {
    if w.At? then w.fid else -1
  }

  function Walk(st: Store, fid: int, tokens: seq<string>): Walked
    decreases |tokens|
  {
    if tokens == [] then At(fid)
    else
      var hash := HGetAll(st, fid);
      if hash == map[] then Spins
      else if tokens[0] in hash then Walk(st, hash[tokens[0]], tokens[1..])
      else Missing
  }

  /** The tokens of a path: without the empty one in front of the first '/' and
      without the one after a closing '/'. */
  function Tokens(path: string): seq<string>
    requires path != "" && path[0] == '/'
  {
    var tokens := Split(path, {'/'})[1..];
    if tokens != [] && tokens[|tokens| - 1] == "" then tokens[..|tokens| - 1] else tokens
  }

  function Lookup(st: Store, path: string): Walked
    requires path != "" && path[0] == '/'
  {
    Walk(st, 0, Tokens(path))
  }

  /** find_last_of("/\\"), with -1 for npos. */
  function LastSeparator(path: string): (k: int)
    ensures -1 <= k < |path|
    ensures k >= 0 ==> path[k] in SEPARATORS
    ensures Plain(path[k + 1..], SEPARATORS)
  {
    if path == "" then -1
    else if path[|path| - 1] in SEPARATORS then |path| - 1
    else LastSeparator(path[..|path| - 1])
  }

  function ParentPath(path: string): (parent: string)
    ensures path != "" && path[0] == '/' ==> parent != "" && parent[0] == '/'
  {
    path[..LastSeparator(path) + 1]
  }

  function Entry(path: string): string {
    path[LastSeparator(path) + 1..]
  }

  /** Paths handed to redis_vfs come out of BuildPath: absolute, '/' only. */
  predicate Rooted(path: string) {
    path != "" && path[0] == '/'
  }

  // ---- The operations ------------------------------------------------------------

  /** An operation returns a code and a new store, or it never returns. */
  datatype Outcome = Done(st: Store, code: int) | Hangs

  function SetDirStat(st: Store, f: int, a: Attributes): Store {
    var st := HSetStat(st, f, "st_size", Num(4096));
    var st := HSetStat(st, f, "st_mode", Num(DIR_MODE));
    var st := HSetStat(st, f, "st_uid", Num(a.uid));
    var st := HSetStat(st, f, "st_gid", Num(a.gid));
    HSetStat(st, f, "st_mtime", Num(a.now))
  }

  function SetFileStat(st: Store, f: int, size: int, a: Attributes, slave: Slave): Store {
    var st := HSetStat(st, f, "st_mode", Num(FILE_MODE));
    var st := HSetStat(st, f, "st_size", Num(size));
    var st := HSetStat(st, f, "st_uid", Num(a.uid));
    var st := HSetStat(st, f, "st_gid", Num(a.gid));
    var st := HSetStat(st, f, "st_mtime", Num(a.now));
    var st := HSetStat(st, f, "slave_host", Text(slave.host));
    HSetStat(st, f, "slave_port", Num(slave.port))
  }

  function Mkdir(st: Store, path: string, a: Attributes): Outcome
    requires Rooted(path)
  {
    var st := Incr(st);
    var parent := Lookup(st, ParentPath(path));
    if parent.Spins? then Hangs
    else if Code(parent) < 0 then Done(st, -1)
    else
      var made := HSet(SetDirStat(st, st.counter, a), parent.fid, Entry(path), st.counter);
      Done(HSet(made, st.counter, ".placeholder", -1), 0)
  }

  function SaveNewFile(st: Store, path: string, size: int, a: Attributes, fid: int, slave: Slave): Outcome
    requires Rooted(path)
  {
    var parent := Lookup(st, ParentPath(path));
    if parent.Spins? then Hangs
    else if Code(parent) < 0 then Done(st, -1)
    else Done(SetFileStat(HSet(st, parent.fid, Entry(path), fid), fid, size, a, slave), 0)
  }

  function Remove(st: Store, path: string): Outcome
    requires Rooted(path)
  {
    var target := Lookup(st, path);
    if target.Spins? then Hangs
    else if Code(target) < 0 then Done(st, -1)
    else
      var parent := Lookup(st, ParentPath(path));
      if parent.Spins? then Hangs
      else if Code(parent) < 0 then Done(st, -1)
      else Done(DelStat(HDel(st, parent.fid, Entry(path)), target.fid), 0)
  }

  /** The last DEL of rmdir names a key "diren:..." that nothing else uses. */
  function Rmdir(st: Store, path: string): Outcome
    requires Rooted(path)
  {
    var target := Lookup(st, path);
    if target.Spins? then Hangs
    else if Code(target) < 0 then Done(st, -1)
    else if HGetAll(st, target.fid) != map[] then Done(st, -1)
    else
      var parent := Lookup(st, ParentPath(path));
      if parent.Spins? then Hangs
      else if Code(parent) < 0 then Done(st, -1)
      else Done(DelStat(HDel(st, parent.fid, Entry(path)), target.fid), 0)
  }

  /** Both parents are looked up from the old path. */
  function Rename(st: Store, oldPath: string, newPath: string): Outcome
    requires Rooted(oldPath)
  {
    var target := Lookup(st, oldPath);
    if target.Spins? then Hangs
    else if Code(target) < 0 then Done(st, -1)
    else
      var parent := Lookup(st, ParentPath(oldPath));
      if parent.Spins? then Hangs
      else if Code(parent) < 0 then Done(st, -1)
      else Done(HSet(HDel(st, parent.fid, Entry(oldPath)), parent.fid, Entry(newPath), target.fid), 0)
  }

  // ---- stat and lookup_slave_info --------------------------------------------------

  function NumField(hash: map<string, Value>, field: string): int {
    if field in hash && hash[field].Num? then hash[field].n else 0
  }

  function Mode(st: Store, f: int): int {
    NumField(HGetStat(st, f), "st_mode")
  }

  datatype FileStat = FileStat(mode: int, size: int, uid: int, gid: int, mtime: int)

  /** What redis_vfs::stat reads out of a stat hash. */
  function StatOf(st: Store, f: int): FileStat {
    var hash := HGetStat(st, f);
    FileStat(NumField(hash, "st_mode"), NumField(hash, "st_size"), NumField(hash, "st_uid"),
             NumField(hash, "st_gid"), NumField(hash, "st_mtime"))
  }

  /** S_ISDIR and S_ISREG of the stored mode. */
  predicate IsDir(st: Store, f: int) {
    f in st.stat && Mode(st, f) / 4096 == 4
  }

  predicate IsFile(st: Store, f: int) {
    f in st.stat && Mode(st, f) / 4096 == 8
  }

  function SlaveOf(st: Store, f: int): Slave {
    var hash := HGetStat(st, f);
    Slave(if "slave_host" in hash && hash["slave_host"].Text? then hash["slave_host"].s else "",
          NumField(hash, "slave_port"))
  }

  /** The store InitRedis leaves behind. */
  function InitRedis(now: int): Store {
    Store(
      map[0 := map[".foo" := -1]],
      map[0 := map["st_mode" := Num(DIR_MODE), "st_size" := Num(4096), "st_uid" := Num(1),
                   "st_gid" := Num(1), "st_mtime" := Num(now)]],
      0)
  }

  // ---- Paths and names ---------------------------------------------------------------

  function Front<T>(s: seq<T>): seq<T>
    requires s != []
  {
    s[..|s| - 1]
  }

  function Last<T>(s: seq<T>): T
    requires s != []
  {
    s[|s| - 1]
  }

  lemma TokensOfJoin(names: seq<string>)
    requires AreNames(names) && names != []
    ensures Rooted(Join(names)) && Tokens(Join(names)) == names
    ensures Tokens(Join(names) + "/") == names
  {
    JoinLength(names);
    SplitOfJoin(names, {'/'});
    assert Last(names) in names;
    assert ([""] + names)[1..] == names;
    SplitAtSeparator(Join(names), '/', "", {'/'});
    assert Join(names) + "/" == Join(names) + ['/'] + "";
    assert ([""] + names + [""])[1..] == names + [""];
  }

  lemma TokensOfRoot()
    ensures Tokens("/") == []
  {
    SplitAtSeparator("", '/', "", {'/'});
    assert "" + ['/'] + "" == "/";
  }

  lemma {:induction false} LastSeparatorAt(x: string, c: char, y: string)
    requires c in SEPARATORS && Plain(y, SEPARATORS)
    ensures LastSeparator(x + [c] + y) == |x|
  {
    var s := x + [c] + y;
    if y != "" {
      assert s[..|s| - 1] == x + [c] + y[..|y| - 1];
      LastSeparatorAt(x, c, y[..|y| - 1]);
    }
  }

  /** A normal path is looked up by its names, with or without a closing '/';
      its parent is looked up by all of them but the last. */
  lemma PathIsNames(st: Store, path: string)
    requires IsNormal(path)
    ensures Rooted(path) && Tokens(path) == Names(path) && Lookup(st, path) == Walk(st, 0, Names(path))
    ensures path != "/" ==> Tokens(path + "/") == Names(path)
    ensures path != "/" ==> Names(path) != [] && Entry(path) == Last(Names(path))
    ensures path != "/" ==> Lookup(st, ParentPath(path)) == Walk(st, 0, Front(Names(path)))
  {
    var names := Names(path);
    NormalIsAbsolute(path);
    NamesAreNames(path);
    if names == [] {
      TokensOfRoot();
    } else {
      TokensOfJoin(names);
      var front, last := Front(names), Last(names);
      assert last in names;
      assert path == Join(front) + ['/'] + last;
      LastSeparatorAt(Join(front), '/', last);
      assert ParentPath(path) == Join(front) + "/";
      if front == [] {
        TokensOfRoot();
        assert Join(front) + "/" == "/";
      } else {
        TokensOfJoin(front);
      }
    }
  }
}
