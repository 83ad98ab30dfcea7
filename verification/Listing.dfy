// Directory LIST and NLST: the enumerator over a directory's hash and the buffer its
// lines go through on their way to the socket.

module Listing {
  import opened Sequences
  import opened Wrappers
  import opened Paths
  import opened Vfs
  import opened VfsInvariant
  import opened VfsResolution
  import opened RedisVfs

  // ---- The order of std::map ------------------------------------------------------

  predicate Leq(a: string, b: string) {
    a == "" || (b != "" && (a[0] < b[0] || (a[0] == b[0] && Leq(a[1..], b[1..]))))
  }

  lemma {:induction false} LeqTotal(a: string, b: string)
    ensures Leq(a, b) || Leq(b, a)
    ensures Leq(a, b) && Leq(b, a) ==> a == b
  {
    if a != "" && b != "" {
      LeqTotal(a[1..], b[1..]);
      assert a == [a[0]] + a[1..] && b == [b[0]] + b[1..];
    }
  }

  lemma {:induction false} LeqTransitive(a: string, b: string, c: string)
    requires Leq(a, b) && Leq(b, c)
    ensures Leq(a, c)
  {
    if a != "" && a[0] == b[0] == c[0] {
      LeqTransitive(a[1..], b[1..], c[1..]);
    }
  }

  /** Leq, spelled out: a prefix comes first, and otherwise the first difference decides. */
  lemma {:induction false} LeqSpelledOut(a: string, b: string)
    ensures Leq(a, b) <==> a <= b || exists k: nat :: k < |a| && k < |b| && a[..k] == b[..k] && a[k] < b[k]
  {
    if a != "" && b != "" && a[0] == b[0] {
      LeqSpelledOut(a[1..], b[1..]);
      assert a == [a[0]] + a[1..] && b == [b[0]] + b[1..];
      if k: nat :| k < |a| && k < |b| && a[..k] == b[..k] && a[k] < b[k] {
        assert k > 0 && a[1..][..k - 1] == a[..k][1..] && b[1..][..k - 1] == b[..k][1..];
      }
      if k: nat :| k < |a[1..]| && k < |b[1..]| && a[1..][..k] == b[1..][..k] && a[1..][k] < b[1..][k] {
        assert a[..k + 1] == [a[0]] + a[1..][..k] && b[..k + 1] == [b[0]] + b[1..][..k];
        assert a[k + 1] < b[k + 1];
      }
    } else if a != "" && b != "" {
      assert a[..0] == b[..0];
    }
  }

  ghost predicate IsLeast(n: string, names: set<string>) {
    n in names && forall m :: m in names ==> Leq(n, m)
  }

  lemma LeastIsUnique(n: string, m: string, names: set<string>)
    requires IsLeast(n, names) && IsLeast(m, names)
    ensures n == m
  {
    LeqTotal(n, m);
  }

  /** dp->begin(): the least key. */
  method Begin(names: set<string>) returns (least: string)
    requires names != {}
    ensures IsLeast(least, names)
  {
    least :| least in names;
    LeqTotal(least, least);
    var rest := names - {least};
    ghost var seen := {least};
    while rest != {}
      invariant seen + rest == names && IsLeast(least, seen)
      decreases rest
    {
      var n :| n in rest;
      LeqTotal(n, least);
      LeqTotal(n, n);
      if Leq(n, least) {
        forall m | m in seen
          ensures Leq(n, m)
        {
          LeqTransitive(n, least, m);
        }
        least := n;
      }
      rest := rest - {n};
      seen := seen + {n};
    }
    assert seen == names;
  }

  ghost predicate Ascending(order: seq<string>) {
    forall i, j :: 0 <= i < j < |order| ==> Leq(order[i], order[j]) && order[i] != order[j]
  }

  ghost predicate Enumerates(order: seq<string>, names: set<string>) {
    Ascending(order) && forall n :: n in order <==> n in names
  }

  lemma EmptyOrder(a: seq<string>, names: set<string>)
    requires Enumerates(a, names)
    ensures a == [] <==> names == {}
  {
    if a != [] { assert a[0] in a; }
    if names != {} { var n :| n in names; assert n in a; }
  }

  /** There is one ascending order of a set of names. */
  lemma {:induction false} OneOrder(a: seq<string>, b: seq<string>, names: set<string>)
    requires Enumerates(a, names) && Enumerates(b, names)
    ensures a == b
    decreases |a|
  {
    EmptyOrder(a, names);
    EmptyOrder(b, names);
    if a != [] {
      HeadIsLeast(a, names);
      HeadIsLeast(b, names);
      LeastIsUnique(a[0], b[0], names);
      TailEnumerates(a, names);
      TailEnumerates(b, names);
      OneOrder(a[1..], b[1..], names - {a[0]});
      assert a == [a[0]] + a[1..] && b == [b[0]] + b[1..];
    }
  }

  lemma HeadIsLeast(a: seq<string>, names: set<string>)
    requires Enumerates(a, names) && a != []
    ensures IsLeast(a[0], names)
  {
    LeqTotal(a[0], a[0]);
    forall m | m in names
      ensures Leq(a[0], m)
    {
      var i :| 0 <= i < |a| && a[i] == m;
    }
  }

  lemma TailEnumerates(a: seq<string>, names: set<string>)
    requires Enumerates(a, names) && a != []
    ensures Enumerates(a[1..], names - {a[0]})
  {
    assert a == [a[0]] + a[1..];
    forall n | n in a[1..]
      ensures n != a[0]
    {
      var i :| 0 <= i < |a[1..]| && a[1..][i] == n;
      assert a[i + 1] == n;
    }
  }

  lemma {:induction false} LeastExists(names: set<string>)
    requires names != {}
    ensures exists n :: IsLeast(n, names)
    decreases |names|
  {
    var x :| x in names;
    LeqTotal(x, x);
    if names == {x} {
      assert IsLeast(x, names);
    } else {
      LeastExists(names - {x});
      var n :| IsLeast(n, names - {x});
      LeqTotal(x, n);
      if Leq(x, n) {
        forall m | m in names ensures Leq(x, m) { if m != x { LeqTransitive(x, n, m); } }
        assert IsLeast(x, names);
      } else {
        assert IsLeast(n, names);
      }
    }
  }

  ghost function Least(names: set<string>): (n: string)
    requires names != {}
    ensures IsLeast(n, names)
  {
    LeastExists(names);
    var n :| IsLeast(n, names);
    n
  }

  lemma LeastFirst(n: string, rest: seq<string>, names: set<string>)
    requires IsLeast(n, names) && Enumerates(rest, names - {n})
    ensures Enumerates([n] + rest, names)
  {
    forall i, j | 0 <= i < j < |rest| + 1
      ensures Leq(([n] + rest)[i], ([n] + rest)[j]) && ([n] + rest)[i] != ([n] + rest)[j]
    {
      assert rest[j - 1] in rest;
      if i > 0 { assert Leq(rest[i - 1], rest[j - 1]) && rest[i - 1] != rest[j - 1]; }
    }
  }

  /** The names in the order std::map walks them. */
  ghost function Sorted(names: set<string>): (order: seq<string>)
    ensures Enumerates(order, names)
    decreases |names|
  {
    if names == {} then []
    else
      var rest := Sorted(names - {Least(names)});
      LeastFirst(Least(names), rest, names);
      [Least(names)] + rest
  }

  lemma SortedStep(n: string, names: set<string>)
    requires IsLeast(n, names)
    ensures Sorted(names) == [n] + Sorted(names - {n})
  {
    LeastIsUnique(n, Least(names), names);
  }

  // ---- What a listing is -----------------------------------------------------------

  datatype Info = Info(mode: int, size: int, mtime: int)

  predicate Shown(name: string, optA: bool) {
    name == "" || name[0] != '.' || optA
  }

  function FullPathOf(dir: string, name: string): string
    requires dir != ""
  {
    dir + (if dir[|dir| - 1] == '/' then "" else "/") + name
  }

  function LineOf(dir: string, name: string, optA: bool, format: (string, string) -> string): string
    requires dir != ""
  {
    if Shown(name, optA) then format(FullPathOf(dir, name), name) else ""
  }

  function LinesOf(dir: string, names: seq<string>, optA: bool, format: (string, string) -> string): string
    requires dir != ""
    decreases |names|
  {
    if names == [] then "" else LineOf(dir, names[0], optA, format) + LinesOf(dir, names[1..], optA, format)
  }

  predicate Fits(dir: string, name: string) {
    |dir| + |name| < MAX_PATH
  }

  /** FindNext stops for good at the first name that does not fit a path buffer. */
  function UpToOverlong(dir: string, names: seq<string>): seq<string> {
    if names == [] || !Fits(dir, names[0]) then [] else [names[0]] + UpToOverlong(dir, names[1..])
  }

  /** Every entry is reached exactly when every name fits. */
  lemma {:induction false} AllReachedIff(dir: string, names: seq<string>)
    ensures UpToOverlong(dir, names) == names <==> forall n :: n in names ==> Fits(dir, n)
    ensures |UpToOverlong(dir, names)| <= |names|
  {
    if names != [] {
      AllReachedIff(dir, names[1..]);
      assert names == [names[0]] + names[1..];
    }
  }

  /** The path FindNext builds for an entry resolves to that entry, so the stat it takes
      is the entry's own. */
  lemma EntryResolves(st: Store, path: string, n: string)
    requires TreeInv(st) && IsNormal(path) && IsName(n)
    requires var w := Walk(st, 0, Names(path)); w.At? && HasSlot(st, w.fid, n)
    ensures path != "" && Rooted(FullPathOf(path, n))
    ensures Lookup(st, FullPathOf(path, n)) == At(Slot(st, Walk(st, 0, Names(path)).fid, n))
  {
    var names := Names(path);
    NamesAreNames(path);
    NormalIsAbsolute(path);
    NamesOfRender(names + [n]);
    RenderStep(names, n);
    if names == [] {
      assert FullPathOf(path, n) == "" + "/" + n;
    } else {
      assert Last(names) in names;
      assert path == Join(Front(names)) + "/" + Last(names);
      assert path[|path| - 1] == Last(names)[|Last(names)| - 1];
    }
    PathIsNames(st, FullPathOf(path, n));
    WalkConcat(st, 0, names, [n]);
    StepInto(st, Walk(st, 0, names).fid, n);
  }

  // ---- The buffer --------------------------------------------------------------------

  /** The list buffer, its position and the socket behind it.  A send takes all it is
      given or fails; the answers say which. */
  class ListBuffer {
    const pBuffer: array<char>
    var nBufferPos: nat
    var answers: seq<bool>
    var sent: string

    ghost predicate Valid()
      reads this
    {
      nBufferPos < pBuffer.Length
    }

    /** All that was added: sent already, or waiting in the buffer. */
    ghost function Added(): string
      requires nBufferPos <= pBuffer.Length
      reads this, pBuffer
    {
      sent + pBuffer[..nBufferPos]
    }

    constructor (size: nat, answers: seq<bool>)
      requires size > 0
      ensures Valid() && fresh(pBuffer) && pBuffer.Length == size
      ensures Added() == "" && this.answers == answers && sent == ""
    {
      pBuffer := new char[size];
      nBufferPos, this.answers, sent := 0, answers, "";
    }

    method Send(n: nat) returns (ok: bool)
      requires n <= pBuffer.Length
      modifies this`answers, this`sent
      ensures sent == if ok then old(sent) + pBuffer[..n] else old(sent)
      ensures false !in old(answers) ==> ok && false !in answers
    {
      ok := true;
      if answers != [] {
        ok := answers[0];
        assert answers[0] in answers && forall b :: b in answers[1..] ==> b in answers;
        answers := answers[1..];
      }
      if ok {
        sent := sent + pBuffer[..n];
      }
    }

    /** memcpy behind what the buffer holds. */
    method Put(text: string)
      requires nBufferPos + |text| <= pBuffer.Length
      modifies this`nBufferPos, pBuffer
      ensures nBufferPos == old(nBufferPos) + |text| && Added() == old(Added()) + text
    {
      ghost var head := pBuffer[..nBufferPos];
      forall k | 0 <= k < |text| {
        pBuffer[nBufferPos + k] := text[k];
      }
      nBufferPos := nBufferPos + |text|;
      assert pBuffer[..nBufferPos] == head + text;
      Regroup(sent, head, text);
    }

    /** A full buffer is sent, and is empty then. */
    method SendFull() returns (ok: bool)
      requires nBufferPos == pBuffer.Length
      modifies this`nBufferPos, this`answers, this`sent
      ensures nBufferPos == (if ok then 0 else pBuffer.Length) && Added() == old(Added())
      ensures false !in old(answers) ==> ok && false !in answers
    {
      ok := Send(pBuffer.Length);
      if ok {
        nBufferPos := 0;
        assert sent + pBuffer[..0] == sent;
      }
    }

    /** Adds a line; a full buffer is sent and the rest of the line starts the next one. */
    method AddToListBuffer(line: string) returns (ok: bool)
      requires Valid() && |line| <= pBuffer.Length
      modifies this`nBufferPos, this`answers, this`sent, pBuffer
      ensures nBufferPos <= pBuffer.Length && Added() <= old(Added()) + line
      ensures ok ==> Valid() && Added() == old(Added()) + line
      ensures false !in old(answers) ==> ok && false !in answers
    {
      var available := pBuffer.Length - nBufferPos;
      var canCopy := if |line| <= available then |line| else available;
      ghost var before := Added();
      Regroup(before, line[..canCopy], line[canCopy..]);
      assert line[..canCopy] + line[canCopy..] == line;
      Put(line[..canCopy]);
      ok := true;
      if nBufferPos == pBuffer.Length {
        ok := SendFull();
        if ok && canCopy < |line| {
          Put(line[canCopy..]);
        }
      }
    }

    /** A null line: what is in the buffer is sent, and the answer is not looked at. */
    method Flush()
      requires nBufferPos <= pBuffer.Length
      modifies this`answers, this`sent
      ensures sent <= old(Added())
      ensures false !in old(answers) ==> sent == old(Added())
    {
      var _ := Send(nBufferPos);
    }
  }

  // ---- The enumerator -------------------------------------------------------------------

  /** CEnumFileInfo over a VDIR, the copy of the hash that readdir erases from. */
  class EnumFileInfo {
    const dirPath: string
    var vdp: map<string, int>
    var name: string

    constructor (dirPath: string)
      requires dirPath != ""
      ensures this.dirPath == dirPath && vdp == map[]
    {
      this.dirPath, vdp, name := dirPath, map[], "";
    }

    /** readdir and the length check: false at the end, or at a name that does not fit. */
    method FindNext() returns (ok: bool)
      requires dirPath != ""
      modifies this`vdp, this`name
      ensures old(vdp) == map[] ==> !ok && vdp == map[]
      ensures old(vdp) != map[] ==>
        IsLeast(name, old(vdp).Keys) && vdp == old(vdp) - {name}
        && ok == Fits(dirPath, name) == (|dirPath| + |name| < 4096)
    {
      if |vdp| == 0 {
        return false;
      }
      name := Begin(vdp.Keys);
      vdp := vdp - {name};
      ok := |dirPath| + |name| < MAX_PATH;
    }
  }

  /** Each formatted line fits the buffer: the documented minimum size. */
  ghost predicate LinesFit(dir: string, names: set<string>, optA: bool, format: (string, string) -> string, size: nat)
    requires dir != ""
  {
    forall n :: n in names && Fits(dir, n) ==> |LineOf(dir, n, optA, format)| <= size
  }

  /** The listing of a directory: the lines of its names in ascending order, up to the
      first name that does not fit. */
  ghost function ListingOf(dir: string, names: set<string>, optA: bool, format: (string, string) -> string): string
    requires dir != ""
  {
    LinesOf(dir, UpToOverlong(dir, Sorted(names)), optA, format)
  }

  lemma ListingStep(dir: string, n: string, names: set<string>, optA: bool, format: (string, string) -> string)
    requires dir != "" && IsLeast(n, names)
    ensures ListingOf(dir, names, optA, format) ==
      if Fits(dir, n) then LineOf(dir, n, optA, format) + ListingOf(dir, names - {n}, optA, format) else ""
  {
    SortedStep(n, names);
    assert ([n] + Sorted(names - {n}))[1..] == Sorted(names - {n});
    if Fits(dir, n) {
      var more := UpToOverlong(dir, Sorted(names - {n}));
      assert ([n] + more)[1..] == more;
    }
  }

  /** When every name fits, the listing is the lines of all the names. */
  lemma {:induction false} ListingIsComplete(
      dir: string, names: set<string>, optA: bool, format: (string, string) -> string)
    requires dir != "" && forall n :: n in names ==> Fits(dir, n)
    ensures ListingOf(dir, names, optA, format) == LinesOf(dir, Sorted(names), optA, format)
    ensures Enumerates(Sorted(names), names)
  {
    AllReachedIff(dir, Sorted(names));
  }

  // ---- The listing, spelled out -----------------------------------------------------------

  /** The text is the lines of these entries, one after the other. */
  ghost predicate TextOf(dir: string, order: seq<string>, format: (string, string) -> string, text: string) {
    text == Concat(EntryLines(dir, order, format))
  }

  function EntryLines(dir: string, order: seq<string>, format: (string, string) -> string): seq<string> {
    if order == [] then []
    else [format((if dir == "/" then "" else dir) + "/" + order[0], order[0])] + EntryLines(dir, order[1..], format)
  }

  /** The names in the order given that a listing shows: hidden ones only with -a. */
  function Visible(order: seq<string>, optA: bool): seq<string> {
    if order == [] then []
    else (if optA || order[0] == "" || order[0][0] != '.' then [order[0]] else []) + Visible(order[1..], optA)
  }

  lemma {:induction false} VisibleIs(order: seq<string>, optA: bool)
    requires Ascending(order)
    ensures Ascending(Visible(order, optA))
    ensures forall n :: n in Visible(order, optA) <==> n in order && (optA || n == "" || n[0] != '.')
  {
    if order != [] {
      var tail := order[1..];
      assert order == [order[0]] + tail;
      assert forall i :: 0 <= i < |tail| ==> tail[i] == order[i + 1];
      VisibleIs(tail, optA);
      forall n | n in Visible(tail, optA)
        ensures Leq(order[0], n) && order[0] != n
      {
        var i :| 0 <= i < |tail| && tail[i] == n;
      }
    }
  }

  lemma {:induction false} LinesAreVisible(
      dir: string, order: seq<string>, optA: bool, format: (string, string) -> string)
    requires IsNormal(dir) && dir != ""
    ensures LinesOf(dir, order, optA, format) == Concat(EntryLines(dir, Visible(order, optA), format))
    decreases |order|
  {
    if order != [] {
      var n, rest := order[0], Visible(order[1..], optA);
      LinesAreVisible(dir, order[1..], optA, format);
      if optA || n == "" || n[0] != '.' {
        EntryPath(dir, n);
        assert ([n] + rest)[1..] == rest;
        var line := format(FullPathOf(dir, n), n);
        assert ([line] + EntryLines(dir, rest, format))[1..] == EntryLines(dir, rest, format);
      } else {
        assert [] + rest == rest;
        NothingToJoin(LinesOf(dir, order[1..], optA, format));
      }
    }
  }

  lemma EntryPath(dir: string, n: string)
    requires IsNormal(dir) && dir != ""
    ensures FullPathOf(dir, n) == (if dir == "/" then "" else dir) + "/" + n
  {
    var names := Names(dir);
    NamesAreNames(dir);
    if names != [] {
      assert Last(names) in names;
      assert dir == Join(Front(names)) + "/" + Last(names);
      assert dir[|dir| - 1] == Last(names)[|Last(names)| - 1];
    }
  }

  /** The least buffer, spelled out: every line that is shown fits it. */
  lemma LinesFitSpelledOut(
      dir: string, names: set<string>, optA: bool, format: (string, string) -> string, size: nat)
    requires IsNormal(dir) && dir != ""
    requires forall n :: n in names && (optA || n == "" || n[0] != '.') ==>
      |format((if dir == "/" then "" else dir) + "/" + n, n)| <= size
    ensures LinesFit(dir, names, optA, format, size)
  {
    forall n | n in names && Fits(dir, n)
      ensures |LineOf(dir, n, optA, format)| <= size
    {
      EntryPath(dir, n);
    }
  }

  /** What a listing that nothing cuts short shows: one line for each entry of the directory,
      in ascending order of the names, without those that begin with '.' unless -a is given. */
  ghost predicate ShowsAll(
      st: Store, path: string, optA: bool, format: (string, string) -> string, order: seq<string>, text: string) {
    && Ascending(order)
    && (forall n :: n in order <==>
          Walk(st, 0, Names(path) + [n]).At? && (optA || n == "" || n[0] != '.'))
    && TextOf(path, order, format, text)
  }

  lemma EntriesAreResolved(st: Store, path: string, n: string)
    requires TreeInv(st) && IsNormal(path) && Rooted(path) && !Lookup(st, path).Spins?
    ensures n in DirNames(st, path) <==> Walk(st, 0, Names(path) + [n]).At?
  {
    PathIsNames(st, path);
    WalkConcat(st, 0, Names(path), [n]);
    assert [n][1..] == [];
  }

  lemma ListingShowsAll(st: Store, path: string, optA: bool, format: (string, string) -> string)
    requires TreeInv(st) && IsNormal(path) && Rooted(path) && !Lookup(st, path).Spins?
    requires forall n :: n in DirNames(st, path) ==> |path| + |n| < 4096
    ensures exists order ::
      ShowsAll(st, path, optA, format, order, ListingOf(path, DirNames(st, path), optA, format))
  {
    var names := DirNames(st, path);
    var order := Visible(Sorted(names), optA);
    ListingIsComplete(path, names, optA, format);
    VisibleIs(Sorted(names), optA);
    LinesAreVisible(path, Sorted(names), optA, format);
    forall n
      ensures n in names <==> Walk(st, 0, Names(path) + [n]).At?
    {
      EntriesAreResolved(st, path, n);
    }
    assert ShowsAll(st, path, optA, format, order, ListingOf(path, names, optA, format));
  }

  /** The directory branch of ListThread.  What goes out is a beginning of the listing,
      and the whole listing when no send fails. */
  method ListDirectory(redis: Redis, path: string, optA: bool, format: (string, string) -> string,
                       bufferSize: nat, answers: seq<bool>)
    returns (out: string)
    requires IsNormal(path) && Rooted(path) && !Lookup(redis.View(), path).Spins? && bufferSize > 0
    requires LinesFit(path, DirNames(redis.View(), path), optA, format, bufferSize)
    ensures out <= ListingOf(path, DirNames(redis.View(), path), optA, format)
    ensures false !in answers ==> out == ListingOf(path, DirNames(redis.View(), path), optA, format)
    ensures TreeInv(redis.View()) && false !in answers
      && (forall n :: n in DirNames(redis.View(), path) ==> |path| + |n| < 4096)
      ==> exists order :: ShowsAll(redis.View(), path, optA, format, order, out)
  {
    if TreeInv(redis.View()) && (forall n :: n in DirNames(redis.View(), path) ==> |path| + |n| < 4096) {
      ListingShowsAll(redis.View(), path, optA, format);
    }
    var temp := path + (if path[|path| - 1] != '/' then "/" else "");
    OpenedPath(redis.View(), path);
    var dir := redis.OpenDir(temp);
    if dir == None {
      return "";
    }
    out := ListEntries(path, dir.value, optA, format, bufferSize, answers);
  }

  /** The names in the hash of a directory; none for a path that does not resolve. */
  ghost function DirNames(st: Store, path: string): set<string>
    requires Rooted(path)
  {
    var f := Code(Lookup(st, path));
    if f < 0 then {} else HGetAll(st, f).Keys
  }

  /** opendir is given the path with one '/' at its end. */
  lemma OpenedPath(st: Store, path: string)
    requires IsNormal(path)
    ensures Rooted(path) && path != ""
    ensures Rooted(path + (if path[|path| - 1] != '/' then "/" else ""))
    ensures Lookup(st, path + (if path[|path| - 1] != '/' then "/" else "")) == Lookup(st, path)
  {
    PathIsNames(st, path);
    if path == "/" {
      assert path + "" == path;
    } else {
      var names := Names(path);
      NamesAreNames(path);
      assert Last(names) in names;
      assert path == Join(Front(names)) + "/" + Last(names);
      assert path[|path| - 1] == Last(names)[|Last(names)| - 1];
    }
  }

  method ListEntries(path: string, hash: map<string, int>, optA: bool, format: (string, string) -> string,
                     bufferSize: nat, answers: seq<bool>)
    returns (out: string)
    requires path != "" && bufferSize > 0 && LinesFit(path, hash.Keys, optA, format, bufferSize)
    ensures out <= ListingOf(path, hash.Keys, optA, format)
    ensures false !in answers ==> out == ListingOf(path, hash.Keys, optA, format)
  {
    var fi := new EnumFileInfo(path);
    fi.vdp := hash;
    var more := Find(fi, hash.Keys, optA, format);
    if !more {
      return "";
    }
    var list := new ListBuffer(bufferSize, answers);
    AddAll(fi, list, hash.Keys, optA, format);
    list.Flush();
    out := list.sent;
  }

  /** The loop: line after line until the names end or a send fails. */
  method AddAll(fi: EnumFileInfo, list: ListBuffer, ghost names: set<string>, optA: bool,
                format: (string, string) -> string)
    requires AtEntry(fi, names) && list.Valid() && LinesFit(fi.dirPath, names, optA, format, list.pBuffer.Length)
    modifies fi`vdp, fi`name, list, list.pBuffer
    ensures list.nBufferPos <= list.pBuffer.Length
    ensures list.Added() <= old(list.Added()) + ListingOf(fi.dirPath, names, optA, format)
    ensures false !in old(list.answers) ==> false !in list.answers
    ensures false !in old(list.answers) ==>
      list.Added() == old(list.Added()) + ListingOf(fi.dirPath, names, optA, format)
  {
    ghost var all := list.Added() + ListingOf(fi.dirPath, names, optA, format);
    ghost var rest := names;
    var more := true;
    while more
      invariant list.nBufferPos <= list.pBuffer.Length && list.Added() <= all && rest <= names
      invariant more ==> AtEntry(fi, rest) && list.Valid()
      invariant more ==> list.Added() + ListingOf(fi.dirPath, rest, optA, format) == all
      invariant false !in old(list.answers) ==> false !in list.answers && (!more ==> list.Added() == all)
      decreases more, |rest|
    {
      ghost var left := rest - {fi.name};
      more := Turn(fi, list, rest, optA, format);
      rest := left;
    }
  }

  /** The enumerator stands on the least of the names left, and holds the others. */
  ghost predicate AtEntry(fi: EnumFileInfo, rest: set<string>)
    reads fi
  {
    fi.dirPath != "" && IsLeast(fi.name, rest) && Fits(fi.dirPath, fi.name) && fi.vdp.Keys == rest - {fi.name}
  }

  /** FindNext, seen from the names left: when it fails they are listed as nothing. */
  method Find(fi: EnumFileInfo, ghost rest: set<string>, optA: bool, format: (string, string) -> string)
    returns (more: bool)
    requires fi.dirPath != "" && fi.vdp.Keys == rest
    modifies fi`vdp, fi`name
    ensures more ==> AtEntry(fi, rest)
    ensures !more ==> ListingOf(fi.dirPath, rest, optA, format) == ""
  {
    more := fi.FindNext();
    if rest != {} { ListingStep(fi.dirPath, fi.name, rest, optA, format); }
  }

  /** The body of the loop: the line of the current entry, unless it is hidden, and the
      next entry, unless the line could not be added. */
  method Turn(fi: EnumFileInfo, list: ListBuffer, ghost rest: set<string>, optA: bool,
              format: (string, string) -> string)
    returns (more: bool)
    requires AtEntry(fi, rest) && list.Valid()
    requires |LineOf(fi.dirPath, fi.name, optA, format)| <= list.pBuffer.Length
    modifies fi`vdp, fi`name, list, list.pBuffer
    ensures list.nBufferPos <= list.pBuffer.Length
    ensures list.Added() <= old(list.Added()) + ListingOf(fi.dirPath, rest, optA, format)
    ensures more ==> AtEntry(fi, rest - {old(fi.name)}) && list.Valid()
    ensures more ==>
      list.Added() + ListingOf(fi.dirPath, rest - {old(fi.name)}, optA, format)
        == old(list.Added()) + ListingOf(fi.dirPath, rest, optA, format)
    ensures false !in old(list.answers) ==> false !in list.answers
    ensures false !in old(list.answers) && !more ==>
      list.Added() == old(list.Added()) + ListingOf(fi.dirPath, rest, optA, format)
  {
    ghost var added, line := list.Added(), LineOf(fi.dirPath, fi.name, optA, format);
    ghost var left := rest - {fi.name};
    ghost var todo := ListingOf(fi.dirPath, left, optA, format);
    ListingStep(fi.dirPath, fi.name, rest, optA, format);
    var ok := AddEntry(fi, list, rest, optA, format);
    AddedSoFar(added, line, todo, list.Added());
    more := false;
    if ok {
      more := Find(fi, left, optA, format);
    }
  }

  lemma AddedSoFar(added: string, line: string, todo: string, now: string)
    requires now <= added + line
    ensures now <= added + (line + todo)
    ensures now == added + line ==> now + todo == added + (line + todo)
    ensures now == added + line && todo == "" ==> now == added + (line + todo)
  {
    Regroup(added, line, todo);
    NothingToJoin(line);
  }

  method AddEntry(fi: EnumFileInfo, list: ListBuffer, ghost rest: set<string>, optA: bool,
                  format: (string, string) -> string)
    returns (ok: bool)
    requires AtEntry(fi, rest) && list.Valid()
    requires |LineOf(fi.dirPath, fi.name, optA, format)| <= list.pBuffer.Length
    modifies list, list.pBuffer
    ensures list.nBufferPos <= list.pBuffer.Length
    ensures list.Added() <= old(list.Added()) + LineOf(fi.dirPath, fi.name, optA, format)
    ensures ok ==> list.Valid() && list.Added() == old(list.Added()) + LineOf(fi.dirPath, fi.name, optA, format)
    ensures false !in old(list.answers) ==> ok && false !in list.answers
  {
    ok := true;
    if fi.name == "" || fi.name[0] != '.' || optA {
      ok := list.AddToListBuffer(format(FullPathOf(fi.dirPath, fi.name), fi.name));
    } else {
      assert list.Added() + "" == list.Added();
    }
  }
}
