// Reference semantics of virtual paths: cut a path into fields, run the fields
// over a stack of names, and write the stack back out with '/' in front of
// every name.

module Paths {
  import opened Fields

  const SEPARATORS: set<char> := {'/', '\\'}

  /** PATH_MAX: the longest path a client may have, without its NUL. */
  const MAX_PATH: nat := 4096

  /** One field met by the normaliser: "" and "." do nothing, ".." pops (at the
      root there is nothing to pop), anything else is pushed. */
  function Push(stack: seq<string>, field: string): seq<string> {
    if field == "" || field == "." then stack
    else if field == ".." then (if stack == [] then [] else stack[..|stack| - 1])
    else stack + [field]
  }

  function Fold(stack: seq<string>, fields: seq<string>): seq<string>
    decreases |fields|
  {
    if fields == [] then stack else Fold(Push(stack, fields[0]), fields[1..])
  }

  /** The names a path stands for, from the root down. */
  function Names(path: string): seq<string> {
    Fold([], Split(path, SEPARATORS))
  }

  function Join(names: seq<string>): string {
    if names == [] then "" else Join(names[..|names| - 1]) + "/" + names[|names| - 1]
  }

  function Render(names: seq<string>): string {
    if names == [] then "/" else Join(names)
  }

  /** The reference normal form. */
  function Normalize(path: string): string {
    Render(Names(path))
  }

  /** A name that can stand between two slashes of a normal path. */
  ghost predicate IsName(n: string) {
    n != "" && n != "." && n != ".." && Plain(n, SEPARATORS)
  }

  ghost predicate AreNames(names: seq<string>) {
    forall n :: n in names ==> IsName(n)
  }

  ghost predicate IsNormal(path: string) {
    path == Normalize(path)
  }

  predicate IsAbsolute(path: string) {
    path != "" && path[0] in SEPARATORS
  }

  lemma {:induction false} FoldConcat(stack: seq<string>, a: seq<string>, b: seq<string>)
    ensures Fold(stack, a + b) == Fold(Fold(stack, a), b)
    decreases |a|
  {
    if a == [] {
      assert a + b == b;
    } else {
      assert (a + b)[1..] == a[1..] + b;
      FoldConcat(Push(stack, a[0]), a[1..], b);
    }
  }

  /** Names of a path cut at one of its separators. */
  lemma NamesAtSeparator(x: string, c: char, y: string)
    requires c in SEPARATORS
    ensures Names(x + [c] + y) == Fold(Names(x), Split(y, SEPARATORS))
  {
    SplitAtSeparator(x, c, y, SEPARATORS);
    FoldConcat([], Split(x, SEPARATORS), Split(y, SEPARATORS));
  }

  /** A last field that holds no separator is one more step of the stack. */
  lemma NamesOfLast(x: string, c: char, field: string)
    requires c in SEPARATORS && Plain(field, SEPARATORS)
    ensures Names(x + [c] + field) == Push(Names(x), field)
  {
    NamesAtSeparator(x, c, field);
    SplitPlain(field, SEPARATORS);
    assert Fold(Names(x), [field]) == Push(Names(x), field);
  }

  lemma {:induction false} FoldKeepsNames(stack: seq<string>, fields: seq<string>)
    requires AreNames(stack)
    requires forall f :: f in fields ==> Plain(f, SEPARATORS)
    ensures AreNames(Fold(stack, fields))
    decreases |fields|
  {
    if fields != [] {
      assert fields[0] in fields;
      FoldKeepsNames(Push(stack, fields[0]), fields[1..]);
    }
  }

  /** Whatever the path, its names are proper names: no separator, no "." or "..". */
  lemma NamesAreNames(path: string)
    ensures AreNames(Names(path))
  {
    SplitIsPlain(path, SEPARATORS);
    FoldKeepsNames([], Split(path, SEPARATORS));
  }

  lemma RenderStep(names: seq<string>, n: string)
    ensures Join(names + [n]) == Join(names) + "/" + n
    ensures Render(names + [n]) == Join(names) + "/" + n
  {
    assert (names + [n])[..|names|] == names;
  }

  lemma EmptyHasNoNames()
    ensures Names("") == []
  {
    assert Fold([], [""]) == Fold([], []);
  }

  lemma {:induction false} NamesOfJoin(names: seq<string>)
    requires AreNames(names)
    ensures Names(Join(names)) == names
  {
    if names == [] {
      EmptyHasNoNames();
    } else {
      var front, last := names[..|names| - 1], names[|names| - 1];
      assert names == front + [last];
      assert last in names;
      NamesOfJoin(front);
      NamesOfLast(Join(front), '/', last);
      assert Join(names) == Join(front) + ['/'] + last;
    }
  }

  /** Rendering and reading back are inverse on proper names. */
  lemma NamesOfRender(names: seq<string>)
    requires AreNames(names)
    ensures Names(Render(names)) == names
  {
    if names == [] {
      NamesOfLast("", '/', "");
      assert "" + ['/'] + "" == "/";
      NamesOfJoin([]);
    } else {
      NamesOfJoin(names);
    }
  }

  /** Normalising twice is normalising once. */
  lemma NormalizeIdempotent(path: string)
    ensures Normalize(Normalize(path)) == Normalize(path)
    ensures IsNormal(Normalize(path)) && Names(Normalize(path)) == Names(path)
  {
    NamesAreNames(path);
    NamesOfRender(Names(path));
  }

  /** The reference, spelled out: after '/' or '\\' an empty field and "." change nothing,
      ".." takes the last name away, and any other field is one more name. */
  lemma NamesSpelledOut(x: string, field: string)
    requires '/' !in field && '\\' !in field
    ensures Names(x + "/" + field) == Names(x + "\\" + field)
    ensures Names(x + "/" + field) ==
      if field == "" || field == "." then Names(x)
      else if field == ".." then (if Names(x) == [] then [] else Names(x)[..|Names(x)| - 1])
      else Names(x) + [field]
    ensures Names("") == []
  {
    assert x + "/" + field == x + ['/'] + field && x + "\\" + field == x + ['\\'] + field;
    forall i | 0 <= i < |field| ensures field[i] !in SEPARATORS { assert field[i] in field; }
    NamesOfLast(x, '/', field);
    NamesOfLast(x, '\\', field);
    EmptyHasNoNames();
  }

  /** A normal form has a '/' in front of every name, and is "/" without any. */
  lemma RenderSpelledOut(names: seq<string>, n: string)
    ensures Render([]) == "/"
    ensures Render(names + [n]) == (if names == [] then "" else Render(names)) + "/" + n
  {
    RenderStep(names, n);
  }

  lemma {:induction false} JoinLength(names: seq<string>)
    ensures names != [] ==> Join(names) != "" && Join(names)[0] == '/'
  {
    if names != [] {
      JoinLength(names[..|names| - 1]);
    }
  }

  lemma NormalIsAbsolute(path: string)
    requires IsNormal(path)
    ensures path != "" && path[0] == '/'
  {
    JoinLength(Names(path));
  }

  /** Resolving `asked` against the names of a directory. */
  lemma NamesBelow(dir: string, asked: string)
    ensures Names(dir + "/" + asked) == Fold(Names(dir), Split(asked, SEPARATORS))
  {
    NamesAtSeparator(dir, '/', asked);
  }

  /** A path that is normal already only appends: it cannot climb above `dir`. */
  lemma {:induction false} FoldOfNames(stack: seq<string>, names: seq<string>)
    requires AreNames(names)
    ensures Fold(stack, names) == stack + names
    decreases |names|
  {
    if names == [] {
      assert stack + names == stack;
    } else {
      assert names[0] in names;
      FoldOfNames(stack + [names[0]], names[1..]);
      assert stack + [names[0]] + names[1..] == stack + names;
    }
  }

  lemma {:induction false} SplitOfJoin(names: seq<string>, seps: set<char>)
    requires AreNames(names) && '/' in seps && seps <= SEPARATORS
    ensures Split(Join(names), seps) == [""] + names
  {
    if names != [] {
      var front, last := names[..|names| - 1], names[|names| - 1];
      assert last in names;
      SplitOfJoin(front, seps);
      SplitAtSeparator(Join(front), '/', last, seps);
      SplitPlain(last, seps);
      assert Join(names) == Join(front) + ['/'] + last;
      assert [""] + front + [last] == [""] + names;
    }
  }

  lemma NamesBelowNormal(dir: string, path: string)
    requires IsNormal(path)
    ensures Names(dir + "/" + path) == Names(dir) + Names(path)
  {
    var names := Names(path);
    NamesAreNames(path);
    NamesBelow(dir, path);
    if names == [] {
      SplitAtSeparator("", '/', "", SEPARATORS);
      assert "" + ['/'] + "" == path;
      assert Split(path, SEPARATORS) == ["", ""];
      assert Fold(Names(dir), ["", ""]) == Fold(Names(dir), [""]) == Names(dir);
    } else {
      SplitOfJoin(names, SEPARATORS);
      FoldConcat(Names(dir), [""], names);
      FoldOfNames(Names(dir), names);
    }
  }
}
