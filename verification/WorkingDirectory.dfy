// BuildVirtualPath, BuildPath and the commands that move a client's working
// directory: CWD, CDUP and the log-out a second USER performs.

module WorkingDirectory {
  import opened Wrappers
  import opened Fields
  import opened Paths
  import opened CStrings
  import opened PathRewriter

  /** What snprintf leaves of s in a buffer with room for n characters. */
  function Clip(s: string, n: nat): string {
    if |s| <= n then s else s[..n]
  }

  function Fitting(path: string): Option<string> {
    if |path| <= MAX_PATH then Some(path) else None
  }

  function VirtualPath(cwd: string, asked: Option<string>): Option<string> {
    match asked
    case None => Some(cwd)
    case Some(a) =>
      if a != "" && a[0] == '/' then Fitting(Normalize(a))
      else Fitting(Normalize(Clip(cwd + "/" + a, MAX_PATH + 3)))
  }

  function FullPath(start: string, virtualPath: string): Option<string> {
    Fitting(Normalize(Clip(start + "/" + virtualPath, MAX_PATH + 3)))
  }

  ghost predicate IsWorkingDir(path: string) {
    IsNormal(path) && |path| <= MAX_PATH
  }

  // ---- What the two builders return ----------------------------------------

  /** Every virtual path is a possible working directory. */
  lemma VirtualPathIsNormal(cwd: string, asked: Option<string>)
    requires IsWorkingDir(cwd)
    ensures var v := VirtualPath(cwd, asked); v.Some? ==> IsWorkingDir(v.value)
  {
    if asked.Some? {
      NormalizeIdempotent(asked.value);
      NormalizeIdempotent(Clip(cwd + "/" + asked.value, MAX_PATH + 3));
    }
  }

  /** Where the asked path leads from the working directory, or from the root when it
      starts with '/'. */
  function Resolved(cwd: string, asked: string): seq<string> {
    Fold(if asked != "" && asked[0] == '/' then [] else Names(cwd), Split(asked, SEPARATORS))
  }

  /** An argument that begins with '/' is asked for from the root, any other from the working
      directory. */
  lemma ResolvedSpelledOut(cwd: string, asked: string)
    ensures Resolved(cwd, "/" + asked) == Names("/" + asked)
    ensures asked == "" || asked[0] != '/' ==> Resolved(cwd, asked) == Names(cwd + "/" + asked)
  {
    NamesBelow(cwd, asked);
  }

  /** What BuildVirtualPath is for: the place asked for, if its path is not too long. */
  function Asked(cwd: string, asked: string): Option<string> {
    Fitting(Render(Resolved(cwd, asked)))
  }

  /** snprintf cuts the argument after this many characters. */
  predicate Overflows(cwd: string, asked: string) {
    (asked == "" || asked[0] != '/') && |cwd| + 1 + |asked| > MAX_PATH + 3
  }

  /** The argument is cut, and walking on from where its kept part leads, through what
      was cut off, ends somewhere else; and not both places are too long to return. */
  predicate CutLeadsElsewhere(cwd: string, asked: string) {
    Overflows(cwd, asked)
    && var m := MAX_PATH + 2 - |cwd|;
       0 <= m
       && var kept, lost := Split(asked[..m], SEPARATORS), Split(asked[m..], SEPARATORS);
          var above, field := Fold(Names(cwd), kept[..|kept| - 1]), kept[|kept| - 1];
          var here, there := Push(above, field), Fold(Push(above, field + lost[0]), lost[1..]);
          here != there && (|Render(here)| <= MAX_PATH || |Render(there)| <= MAX_PATH)
  }

  lemma RenderInjective(a: seq<string>, b: seq<string>)
    requires AreNames(a) && AreNames(b) && Render(a) == Render(b)
    ensures a == b
  {
    NamesOfRender(a);
    NamesOfRender(b);
  }

  /** The virtual path is the path asked for exactly when snprintf does not cut off a
      part of the argument that leads elsewhere. */
  lemma VirtualPathExact(cwd: string, asked: string)
    requires IsWorkingDir(cwd)
    ensures VirtualPath(cwd, Some(asked)) == Asked(cwd, asked) <==> !CutLeadsElsewhere(cwd, asked)
  {
    NamesBelow(cwd, asked);
    if Overflows(cwd, asked) {
      ClippedFold(cwd, asked);
      var m := MAX_PATH + 2 - |cwd|;
      FoldAcrossCut(Names(cwd), asked[..m], asked[m..]);
      assert asked == asked[..m] + asked[m..];
      SplitIsPlain(asked[..m], SEPARATORS);
      SplitIsPlain(asked, SEPARATORS);
      NamesAreNames(cwd);
      FoldKeepsNames(Names(cwd), Split(asked[..m], SEPARATORS));
      FoldKeepsNames(Names(cwd), Split(asked, SEPARATORS));
      FittingDiffers(Fold(Names(cwd), Split(asked[..m], SEPARATORS)), Fold(Names(cwd), Split(asked, SEPARATORS)));
    }
  }

  lemma ClippedFold(cwd: string, asked: string)
    requires IsWorkingDir(cwd) && Overflows(cwd, asked)
    ensures VirtualPath(cwd, Some(asked))
      == Fitting(Render(Fold(Names(cwd), Split(asked[..MAX_PATH + 2 - |cwd|], SEPARATORS))))
  {
    var kept := asked[..MAX_PATH + 2 - |cwd|];
    assert (cwd + "/" + asked)[..MAX_PATH + 3] == cwd + "/" + kept;
    NamesBelow(cwd, kept);
  }

  lemma FittingDiffers(here: seq<string>, there: seq<string>)
    requires AreNames(here) && AreNames(there)
    ensures Fitting(Render(here)) != Fitting(Render(there))
      <==> here != there && (|Render(here)| <= MAX_PATH || |Render(there)| <= MAX_PATH)
  {
    if Render(here) == Render(there) { RenderInjective(here, there); }
  }

  /** A cut inside a path cuts one field in two; the fields before it are the same. */
  lemma FoldAcrossCut(stack: seq<string>, kept: string, lost: string)
    ensures var a, b := Split(kept, SEPARATORS), Split(lost, SEPARATORS);
      var above, field := Fold(stack, a[..|a| - 1]), a[|a| - 1];
      Fold(stack, a) == Push(above, field)
      && Fold(stack, Split(kept + lost, SEPARATORS)) == Fold(Push(above, field + b[0]), b[1..])
  {
    var a, b := Split(kept, SEPARATORS), Split(lost, SEPARATORS);
    var front, field := a[..|a| - 1], a[|a| - 1];
    SplitConcat(kept, lost, SEPARATORS);
    assert a == front + [field] + [];
    FoldThrough(stack, front, field, []);
    FoldThrough(stack, front, field + b[0], b[1..]);
  }

  lemma FoldThrough(stack: seq<string>, front: seq<string>, field: string, tail: seq<string>)
    ensures Fold(stack, front + [field] + tail) == Fold(Push(Fold(stack, front), field), tail)
  {
    assert front + [field] + tail == front + ([field] + tail);
    FoldConcat(stack, front, [field] + tail);
  }

  /** Whatever the argument begins with, once it fills the buffer there is a way to go
      on that is answered with a wrong path, and one that is answered with the right one. */
  lemma EveryCutCanMislead(cwd: string, kept: string)
    requires IsWorkingDir(cwd) && kept != "" && kept[0] != '/' && |cwd| + 1 + |kept| == MAX_PATH + 3
    ensures exists lost :: lost != "" && VirtualPath(cwd, Some(kept + lost)) != Asked(cwd, kept + lost)
    ensures exists lost :: lost != "" && VirtualPath(cwd, Some(kept + lost)) == Asked(cwd, kept + lost)
  {
    var here := Fold(Names(cwd), Split(kept, SEPARATORS));
    NamesBelow(cwd, kept);
    NamesAreNames(cwd + "/" + kept);
    if |Render(here)| <= MAX_PATH {
      GoOn(cwd, kept, "a");
      assert "/" + "a" == "/a";
      SplitPlain("a", SEPARATORS);
      assert Fold(here, ["a"]) == here + ["a"];
      if Render(here) == Render(here + ["a"]) { RenderInjective(here, here + ["a"]); }
      assert VirtualPath(cwd, Some(kept + "/a")) != Asked(cwd, kept + "/a");
    } else {
      GoOn(cwd, kept, Ups(|here|));
      UpsClimb(here, |here|);
      var lost := "/" + Ups(|here|);
      assert lost != "" && VirtualPath(cwd, Some(kept + lost)) != Asked(cwd, kept + lost);
    }
    GoOn(cwd, kept, "");
    assert Fold(here, [""]) == here;
    assert "/" + "" == "/";
    assert VirtualPath(cwd, Some(kept + "/")) == Asked(cwd, kept + "/");
  }

  /** All arguments that snprintf cuts to the same text are answered rightly exactly when
      the text does not fill the buffer. */
  lemma SameCutIff(cwd: string, asked: string)
    requires IsWorkingDir(cwd) && (asked == "" || asked[0] != '/')
    ensures (forall other :: SameCut(cwd, asked, other) ==> VirtualPath(cwd, Some(other)) == Asked(cwd, other))
      <==> |cwd| + 1 + |asked| < MAX_PATH + 3
  {
    if |cwd| + 1 + |asked| < MAX_PATH + 3 {
      forall other | SameCut(cwd, asked, other)
        ensures VirtualPath(cwd, Some(other)) == Asked(cwd, other)
      {
        assert |Clip(cwd + "/" + other, MAX_PATH + 3)| < MAX_PATH + 3;
        VirtualPathExact(cwd, other);
      }
    } else {
      var m := MAX_PATH + 2 - |cwd|;
      assert asked == asked[..m] + asked[m..];
      FullCutMisleads(cwd, asked[..m], asked[m..]);
    }
  }

  lemma FullCutMisleads(cwd: string, kept: string, tail: string)
    requires IsWorkingDir(cwd) && kept != "" && kept[0] != '/' && |cwd| + 1 + |kept| == MAX_PATH + 3
    ensures exists other :: SameCut(cwd, kept + tail, other) && VirtualPath(cwd, Some(other)) != Asked(cwd, other)
  {
    EveryCutCanMislead(cwd, kept);
    var lost :| VirtualPath(cwd, Some(kept + lost)) != Asked(cwd, kept + lost);
    GoOnIsSameCut(cwd, kept, tail, lost);
  }

  lemma GoOnIsSameCut(cwd: string, kept: string, a: string, b: string)
    requires kept != "" && kept[0] != '/' && |cwd| + 1 + |kept| == MAX_PATH + 3
    ensures SameCut(cwd, kept + a, kept + b)
  {
    assert cwd + "/" + (kept + a) == (cwd + "/" + kept) + a;
    assert cwd + "/" + (kept + b) == (cwd + "/" + kept) + b;
  }

  /** Both are relative, and snprintf leaves the same text of both. */
  predicate SameCut(cwd: string, asked: string, other: string) {
    (other == "" || other[0] != '/')
    && Clip(cwd + "/" + other, MAX_PATH + 3) == Clip(cwd + "/" + asked, MAX_PATH + 3)
  }

  /** With the buffer filled exactly, nothing that follows in the argument matters. */
  lemma GoOn(cwd: string, kept: string, more: string)
    requires IsWorkingDir(cwd) && kept != "" && kept[0] != '/' && |cwd| + 1 + |kept| == MAX_PATH + 3
    ensures var here := Fold(Names(cwd), Split(kept, SEPARATORS));
      var asked := kept + ("/" + more);
      VirtualPath(cwd, Some(asked)) == Fitting(Render(here))
      && Resolved(cwd, asked) == Fold(here, Split(more, SEPARATORS))
  {
    var asked := kept + ("/" + more);
    assert cwd + "/" + asked == (cwd + "/" + kept) + ("/" + more);
    assert Clip(cwd + "/" + asked, MAX_PATH + 3) == cwd + "/" + kept;
    NamesBelow(cwd, kept);
    SplitAtSeparator(kept, '/', more, SEPARATORS);
    assert asked == kept + ['/'] + more;
    FoldConcat(Names(cwd), Split(kept, SEPARATORS), Split(more, SEPARATORS));
  }

  function Ups(n: nat): string {
    if n == 0 then "" else "../" + Ups(n - 1)
  }

  lemma {:induction false} UpsClimb(stack: seq<string>, n: nat)
    requires n == |stack|
    ensures Fold(stack, Split(Ups(n), SEPARATORS)) == []
    decreases n
  {
    if n == 0 {
      assert Fold(stack, [""]) == Fold(stack, []);
    } else {
      SplitAtSeparator("..", '/', Ups(n - 1), SEPARATORS);
      SplitPlain("..", SEPARATORS);
      assert Ups(n) == ".." + ['/'] + Ups(n - 1);
      assert ([".."] + Split(Ups(n - 1), SEPARATORS))[1..] == Split(Ups(n - 1), SEPARATORS);
      UpsClimb(stack[..|stack| - 1], n - 1);
    }
  }

  /** What BuildPath is for: the virtual path hung below the start directory. */
  function Wanted(start: string, virtualPath: string): Option<string> {
    Fitting(Render(Names(start) + Names(virtualPath)))
  }

  lemma FullPathUncut(start: string, virtualPath: string)
    requires IsNormal(virtualPath) && |start| + 1 + |virtualPath| <= MAX_PATH + 3
    ensures FullPath(start, virtualPath) == Wanted(start, virtualPath)
  {
    NamesBelowNormal(start, virtualPath);
  }

  lemma {:induction false} JoinConcat(a: seq<string>, b: seq<string>)
    ensures Join(a + b) == Join(a) + Join(b)
  {
    if b == [] {
      assert a + b == a;
    } else {
      var front, last := b[..|b| - 1], b[|b| - 1];
      assert a + b == (a + front) + [last];
      RenderStep(a + front, last);
      JoinConcat(a, front);
    }
  }

  /** A non-empty cut of a rendered path ends inside one of its names. */
  lemma {:induction false} CutOfJoin(names: seq<string>, m: nat) returns (j: nat, field: string)
    requires AreNames(names) && 1 <= m < |Join(names)|
    ensures j < |names| && Join(names)[..m] == Join(names[..j]) + "/" + field
    ensures Plain(field, SEPARATORS)
  {
    var front, last := names[..|names| - 1], names[|names| - 1];
    assert last in names;
    if m < |Join(front)| {
      j, field := CutOfJoin(front, m);
      assert names[..j] == front[..j];
    } else if m == |Join(front)| {
      JoinLength(front);
      j, field := |front| - 1, front[|front| - 1];
      assert names[..j] == front[..|front| - 1];
      assert field in names;
    } else {
      j, field := |front|, last[..m - |Join(front)| - 1];
    }
  }

  lemma {:induction false} JoinGrows(names: seq<string>, j: nat)
    requires j <= |names|
    ensures |Join(names[..j])| <= |Join(names)|
  {
    if j < |names| {
      JoinGrows(names[..|names| - 1], j);
      assert names[..|names| - 1][..j] == names[..j];
    } else {
      assert names[..j] == names;
    }
  }

  // ---- A start directory that is longer than its names -----------------------------------

  /** The field that a path ends in, behind its last separator. */
  function LastField(path: string): string {
    var fields := Split(path, SEPARATORS);
    fields[|fields| - 1]
  }

  lemma LastFieldIs(x: string, field: string)
    requires Plain(field, SEPARATORS)
    ensures LastField(x + ['/'] + field) == field
  {
    SplitAtSeparator(x, '/', field, SEPARATORS);
    SplitPlain(field, SEPARATORS);
  }

  function Total(fields: seq<string>): nat {
    if fields == [] then 0 else 1 + |fields[0]| + Total(fields[1..])
  }

  lemma {:induction false} SplitTotal(s: string)
    ensures Total(Split(s, SEPARATORS)) == |s| + 1
  {
    if s != "" {
      SplitTotal(s[1..]);
    }
  }

  lemma {:induction false} FoldLength(stack: seq<string>, fields: seq<string>)
    ensures |Join(Fold(stack, fields))| <= |Join(stack)| + Total(fields)
    decreases |fields|
  {
    if fields != [] {
      RenderStep(stack, fields[0]);
      if stack != [] { JoinGrows(stack, |stack| - 1); }
      FoldLength(Push(stack, fields[0]), fields[1..]);
    }
  }

  /** How many characters a start directory has beyond its rendered names: closing and
      double slashes, dots and names that are popped again. */
  function Extra(start: string): int {
    |start| - |Join(Names(start))|
  }

  lemma ExtraIsNat(start: string)
    requires start == "" || IsAbsolute(start)
    ensures Extra(start) >= 0
  {
    EmptyHasNoNames();
    if start != "" {
      assert Split(start, SEPARATORS)[1..] == Split(start[1..], SEPARATORS);
      SplitTotal(start[1..]);
      FoldLength([], Split(start[1..], SEPARATORS));
    }
  }

  /** The buffer overflowed, and what is left in it is too long a path all the same: at
      most one character was superfluous and the last field is a name, or none was and the
      last field is empty. */
  predicate CutIsRefused(start: string, virtualPath: string)
    requires |start| + 1 + |virtualPath| >= MAX_PATH + 3
  {
    var field := LastField((start + "/" + virtualPath)[..MAX_PATH + 3]);
    if field == "" then Extra(start) == 0 else Extra(start) <= 1 && field != "." && field != ".."
  }

  /** The raw path overflowed and was cut inside `field`, below the names `names`, with
      `extra` superfluous characters in front of it. */
  lemma CutResult(cut: string, names: seq<string>, field: string, extra: nat)
    requires Names(cut) == names && AreNames(names) && Plain(field, SEPARATORS)
    requires |cut| + 1 + |field| == MAX_PATH + 3 && |cut| == |Join(names)| + 1 + extra
    requires names == [] ==> extra <= MAX_PATH
    ensures Fitting(Normalize(cut + ['/'] + field)) == None
      <==> if field == "" then extra == 0 else extra <= 1 && field != "." && field != ".."
    ensures |Join(Names(cut + ['/'] + field))| <= |Join(names)| + 1 + |field|
  {
    NamesOfLast(cut, '/', field);
    RenderStep(names, field);
    if names != [] { JoinGrows(names, |names| - 1); }
  }

  lemma NamesOfCut(start: string, front: seq<string>)
    requires AreNames(front)
    ensures Names(start + "/" + Join(front)) == Names(start) + front
  {
    NamesBelow(start, Join(front));
    SplitOfJoin(front, SEPARATORS);
    FoldConcat(Names(start), [""], front);
    FoldOfNames(Names(start), front);
  }

  /** How the cut goes: through the start directory whole, then names of the virtual path,
      then a beginning of the next one. */
  lemma CutParts(start: string, virtualPath: string) returns (front: seq<string>, field: string)
    requires |start| <= MAX_PATH && IsWorkingDir(virtualPath) && |start| + 1 + |virtualPath| > MAX_PATH + 3
    ensures AreNames(front) && Plain(field, SEPARATORS) && |Join(front)| + 1 + |field| < |virtualPath|
    ensures (start + "/" + virtualPath)[..MAX_PATH + 3] == (start + "/" + Join(front)) + ['/'] + field
    ensures |start| + 1 + |Join(front)| + 1 + |field| == MAX_PATH + 3
  {
    var below := Names(virtualPath);
    NamesAreNames(virtualPath);
    var m := MAX_PATH + 2 - |start|;
    assert (start + "/" + virtualPath)[..MAX_PATH + 3] == start + "/" + virtualPath[..m];
    var j;
    j, field := CutOfJoin(below, m);
    front := below[..j];
    assert virtualPath[..m] == Join(front) + "/" + field;
    assert start + "/" + (Join(front) + "/" + field) == (start + "/" + Join(front)) + ['/'] + field;
  }

  lemma FullPathCut(start: string, virtualPath: string)
    requires (start == "" || IsAbsolute(start)) && |start| <= MAX_PATH
    requires IsWorkingDir(virtualPath) && |start| + 1 + |virtualPath| > MAX_PATH + 3
    ensures FullPath(start, virtualPath) == None <==> CutIsRefused(start, virtualPath)
    ensures FullPath(start, virtualPath) == Wanted(start, virtualPath) <==> FullPath(start, virtualPath) == None
  {
    var front, field := CutParts(start, virtualPath);
    var above, below := Names(start), Names(virtualPath);
    NamesAreNames(start);
    NamesAreNames(virtualPath);
    ExtraIsNat(start);
    NamesOfCut(start, front);
    JoinConcat(above, front);
    JoinConcat(above, below);
    LastFieldIs(start + "/" + Join(front), field);
    CutResult(start + "/" + Join(front), above + front, field, Extra(start));
    var clipped := (start + "/" + virtualPath)[..MAX_PATH + 3];
    NamesAreNames(clipped);
    if Render(Names(clipped)) == Render(above + below) {
      RenderInjective(Names(clipped), above + below);
    }
  }

  /** BuildPath returns the path wanted exactly when the buffer does not overflow, or what
      is left in it is refused.  (A start directory fits its field of the user record, and
      need not be a normal path.) */
  lemma FullPathExact(start: string, virtualPath: string)
    requires (start == "" || IsAbsolute(start)) && |start| <= MAX_PATH && IsWorkingDir(virtualPath)
    ensures FullPath(start, virtualPath) == Wanted(start, virtualPath)
      <==> |start| + 1 + |virtualPath| <= MAX_PATH + 3 || CutIsRefused(start, virtualPath)
  {
    if |start| + 1 + |virtualPath| <= MAX_PATH + 3 {
      FullPathUncut(start, virtualPath);
    } else {
      FullPathCut(start, virtualPath);
    }
  }

  /** For a normal start directory only a field "." or ".." left by the cut is fatal. */
  lemma NormalStartExact(start: string, virtualPath: string)
    requires IsWorkingDir(start) && IsWorkingDir(virtualPath)
    ensures FullPath(start, virtualPath) == Wanted(start, virtualPath)
      <==>
      |start| + 1 + |virtualPath| <= MAX_PATH + 3
      || LastField((start + "/" + virtualPath)[..MAX_PATH + 3]) !in {".", ".."}
  {
    NormalIsAbsolute(start);
    FullPathExact(start, virtualPath);
  }

  /** The failing family is not empty: below a start directory of MAX_PATH
      characters, asking for "/.b" is answered with the start directory itself. */
  lemma CutLeavesDotsExample()
    ensures var start := "/" + seq(MAX_PATH - 1, _ => 'a');
      IsWorkingDir(start) && IsWorkingDir("/.b")
      && FullPath(start, "/.b") == Some(start) && Wanted(start, "/.b") == None
  {
    var name := seq(MAX_PATH - 1, _ => 'a');
    var start := "/" + name;
    EmptyHasNoNames();
    assert start == "" + ['/'] + name && "/.b" == "" + ['/'] + ".b";
    assert name[0] == 'a';
    NamesOfLast("", '/', name);
    NamesOfLast("", '/', ".b");
    RenderStep([], name);
    RenderStep([], ".b");
    assert [] + [name] == [name] && [] + [".b"] == [".b"];
    var clipped := Clip(start + "/" + "/.b", MAX_PATH + 3);
    assert clipped == (start + ['/'] + "") + ['/'] + ".";
    NamesOfLast(start, '/', "");
    NamesOfLast(start + ['/'] + "", '/', ".");
    assert [name] + [".b"] == [name, ".b"];
    RenderStep([name], ".b");
  }

  /** One superfluous slash is enough when the cut falls behind a name: the client that asks
      for a path below a directory is handed the directory. */
  lemma CutLosesNameExample(n: string)
    requires IsName(n) && |n| == MAX_PATH - 3
    ensures var v := "/" + n + "/c";
      IsWorkingDir(v) && FullPath("/a/", v) == Some("/a/" + n) && Wanted("/a/", v) == None
  {
    RawNames(n);
    RenderTwo(n, "c");
    RenderTwo("a", n);
    RenderStep(["a", n], "c");
    assert ["a"] + [n, "c"] == ["a", n] + ["c"];
    SlashesAround(n);
  }

  lemma SlashesAround(n: string)
    ensures "/" + n + "/" + "c" == "/" + n + "/c" && "/" + "a" + "/" + n == "/a/" + n
  {
  }

  lemma VirtualNames(n: string)
    requires IsName(n)
    ensures Names("/" + n + "/c") == [n, "c"]
  {
    NamesOfTwo("", n, "c");
    assert "/" + n + "/c" == "" + ['/'] + n + ['/'] + "c" && [] + [n] + ["c"] == [n, "c"];
  }

  lemma RawNames(n: string)
    requires IsName(n) && |n| == MAX_PATH - 3
    ensures Names("/" + n + "/c") == [n, "c"] && Names("/a/") == ["a"]
    ensures Names(Clip("/a/" + "/" + ("/" + n + "/c"), MAX_PATH + 3)) == ["a", n]
  {
    VirtualNames(n);
    NamesOfTwo("", "a", "");
    assert "/a/" == "" + ['/'] + "a" + ['/'] + "" && [] + ["a"] == ["a"];
    NamesOfTwo("/a/", "", n);
    NamesOfLast("/a/" + ['/'] + "" + ['/'] + n, '/', "");
    RawText(n);
    assert ["a"] + [n] == ["a", n];
  }

  lemma RawText(n: string)
    requires |n| == MAX_PATH - 3
    ensures Clip("/a/" + "/" + ("/" + n + "/c"), MAX_PATH + 3) == ("/a/" + ['/'] + "" + ['/'] + n) + ['/'] + ""
  {
    assert "/a/" + "/" + ("/" + n + "/c") == (("/a/" + ['/'] + "" + ['/'] + n) + ['/'] + "") + "c";
  }

  lemma NamesOfTwo(x: string, f: string, g: string)
    requires Plain(f, SEPARATORS) && Plain(g, SEPARATORS)
    ensures Names(x + ['/'] + f + ['/'] + g) == Push(Push(Names(x), f), g)
    ensures Names("") == []
  {
    NamesOfLast(x, '/', f);
    NamesOfLast(x + ['/'] + f, '/', g);
    EmptyHasNoNames();
  }

  lemma RenderTwo(f: string, g: string)
    ensures Render([f, g]) == Join([f, g]) == "/" + f + "/" + g
    ensures [] + [f] == [f] && [f] + [g] == [f, g]
  {
    RenderStep([], f);
    RenderStep([f], g);
    assert [] + [f] == [f] && [f] + [g] == [f, g];
  }

  // ---- Runs of CWD, CDUP and USER -------------------------------------------

  /** A CWD comes from whoever is logged in then, with that user's start directory, and
      isDir is the answer Redis gives then to stat on the full path. */
  datatype Command = Cwd(asked: string, start: string, isDir: string -> bool) | Cdup | User

  /** The working directory after one command. */
  ghost function Step(cwd: string, command: Command): string {
    match command
    case Cwd(asked, start, isDir) =>
      var v := VirtualPath(cwd, Some(asked));
      if v.Some? && FullPath(start, v.value).Some? && isDir(FullPath(start, v.value).value)
      then v.value else cwd
    case Cdup => Normalize(cwd + "/..")
    case User => "/"
  }

  ghost function Run(cwd: string, commands: seq<Command>): string
    decreases |commands|
  {
    if commands == [] then cwd else Run(Step(cwd, commands[0]), commands[1..])
  }

  /** Neither snprintf cuts anything. */
  predicate NothingCut(cwd: string, start: string, asked: string) {
    ((asked != "" && asked[0] == '/') || |cwd| + 1 + |asked| <= 4099)
    && (var v := Render(Resolved(cwd, asked)); |v| <= 4096 ==> |start| + 1 + |v| <= 4099)
  }

  /** A CWD from `cwd` to `after` that goes where it is asked to, below the start directory,
      when that is a directory and both paths fit, and stays otherwise. */
  ghost predicate GoesWhereAsked(cwd: string, start: string, asked: string, isDir: string -> bool, after: string) {
    var there := Resolved(cwd, asked);
    var full := Render(Names(start) + there);
    if |Render(there)| <= 4096 && |full| <= 4096 && isDir(full) then after == Render(there) && Names(after) == there
    else after == cwd
  }

  lemma CwdGoesWhereAsked(cwd: string, start: string, asked: string, isDir: string -> bool)
    requires IsWorkingDir(cwd) && NothingCut(cwd, start, asked)
    ensures GoesWhereAsked(cwd, start, asked, isDir, Step(cwd, Cwd(asked, start, isDir)))
  {
    var there := Resolved(cwd, asked);
    VirtualPathExact(cwd, asked);
    NamesAreNames(cwd);
    SplitIsPlain(asked, SEPARATORS);
    FoldKeepsNames(if asked != "" && asked[0] == '/' then [] else Names(cwd), Split(asked, SEPARATORS));
    NamesOfRender(there);
    if |Render(there)| <= 4096 {
      FullPathUncut(start, Render(there));
    }
  }

  lemma CdupDropsLast(cwd: string)
    requires IsWorkingDir(cwd)
    ensures var up := Normalize(cwd + "/..");
      IsWorkingDir(up)
      && Names(up) == if Names(cwd) == [] then [] else Names(cwd)[..|Names(cwd)| - 1]
  {
    NormalizeIdempotent(cwd + "/..");
    NamesOfLast(cwd, '/', "..");
    assert cwd + "/.." == cwd + ['/'] + "..";
    if Names(cwd) != [] {
      JoinGrows(Names(cwd), |Names(cwd)| - 1);
      JoinLength(Names(cwd)[..|Names(cwd)| - 1]);
    }
  }

  lemma RootIsWorkingDir()
    ensures IsWorkingDir("/")
  {
    NamesOfRender([]);
  }

  /** Over every run the working directory stays an absolute normal path that fits. */
  lemma {:induction false} RunKeepsWorkingDir(cwd: string, commands: seq<Command>)
    requires IsWorkingDir(cwd)
    ensures IsWorkingDir(Run(cwd, commands)) && Run(cwd, commands)[0] == '/' && |Run(cwd, commands)| <= 4096
    decreases |commands|
  {
    if commands == [] {
      NormalIsAbsolute(cwd);
    } else {
      match commands[0] {
        case Cwd(asked, _, _) => VirtualPathIsNormal(cwd, Some(asked));
        case Cdup => CdupDropsLast(cwd);
        case User => RootIsWorkingDir();
      }
      RunKeepsWorkingDir(Step(cwd, commands[0]), commands[1..]);
    }
  }

  // ---- The buffers -----------------------------------------------------------

  ghost function Text(b: array?<char>): Option<string>
    requires b != null ==> IsCString(b)
    reads b
  {
    if b == null then None else Some(Str(b))
  }

  /** The part of CClientEntry that holds paths. */
  class ClientPaths {
    const workingDir: array<char>

    ghost predicate Valid()
      reads this, workingDir
    {
      workingDir.Length == MAX_PATH + 4 && IsCString(workingDir) && IsWorkingDir(Str(workingDir))
    }

    constructor ()
      ensures Valid() && fresh(workingDir) && Str(workingDir) == "/"
    {
      workingDir := new char[MAX_PATH + 4];
      new;
      StrCpy(workingDir, "/");
      HoldsOne(workingDir, "/");
      RootIsWorkingDir();
    }

    /** snprintf(dst, dst.Length, "%s/%s", a, b). */
    static method PrintJoined(dst: array<char>, a: array<char>, b: array<char>)
      requires dst.Length > 0 && IsCString(a) && IsCString(b) && dst != a && dst != b
      modifies dst
      ensures IsCString(dst) && Str(dst) == Clip(Str(a) + "/" + Str(b), dst.Length - 1)
    {
      ghost var s, t := Str(a), Str(b);
      var n := StrLen(a, 0, s);
      var m := StrLen(b, 0, t);
      var text := a[..n] + "/" + b[..m];
      assert text == s + "/" + t;
      if |text| > dst.Length - 1 {
        text := text[..dst.Length - 1];
      }
      StrCpy(dst, text);
      HoldsOne(dst, text);
    }

    /** strcpy between two buffers. */
    static method Copy(dst: array<char>, src: array<char>)
      requires IsCString(src) && dst != src && |Str(src)| < dst.Length
      modifies dst
      ensures IsCString(dst) && Str(dst) == Str(src)
    {
      ghost var s := Str(src);
      var n := StrLen(src, 0, s);
      assert src[..n] == s;
      StrCpy(dst, src[..n]);
      HoldsOne(dst, s);
    }

    method BuildVirtualPath(asked: array?<char>) returns (r: array?<char>)
      requires Valid() && asked != workingDir
      requires asked != null ==> IsCString(asked)
      modifies if asked == null then {} else {asked}
      ensures Valid() && Str(workingDir) == old(Str(workingDir))
      ensures r != null ==> fresh(r) && IsCString(r)
      ensures Text(r) == VirtualPath(Str(workingDir), old(Text(asked)))
      ensures asked == null ==> r != null && Str(r) == Str(workingDir)
    {
      var buffer := new char[MAX_PATH + 4];
      ghost var cwd := Str(workingDir);
      NormalIsAbsolute(cwd);
      if asked == null {
        Copy(buffer, workingDir);
        return buffer;
      }
      ghost var a := Str(asked);
      CharAt(asked, 0, a);
      if asked[0] == '/' {
        var _ := SimplifyPath(asked);
        var n := StrLen(asked, 0, Str(asked));
        if n > MAX_PATH { return null; }
        Copy(buffer, asked);
      } else {
        PrintJoined(buffer, workingDir, asked);
        assert IsAbsolute(Str(buffer));
        var _ := SimplifyPath(buffer);
        var n := StrLen(buffer, 0, Str(buffer));
        if n > MAX_PATH { return null; }
      }
      r := buffer;
    }

    /** A client that is not logged in (no start directory) gets nothing. */
    method BuildPath(start: array?<char>, asked: array?<char>) returns (full: array?<char>, v: array?<char>)
      requires Valid() && asked != workingDir && (asked != null ==> IsCString(asked) && asked != start)
      requires start != null ==> IsCString(start) && (Str(start) == "" || IsAbsolute(Str(start)))
      modifies if asked == null then {} else {asked}
      ensures Valid() && Str(workingDir) == old(Str(workingDir))
      ensures full != null ==> fresh(full) && IsCString(full) && v != null
      ensures v != null ==> fresh(v) && IsCString(v)
      ensures start == null ==> full == null
      ensures start != null ==>
        var vp := VirtualPath(Str(workingDir), old(Text(asked)));
        Text(full) == (if vp.None? then None else FullPath(Str(start), vp.value))
        && (full != null ==> Text(v) == vp)
    {
      full, v := null, null;
      if start == null { return; }
      v := BuildVirtualPath(asked);
      if v == null { return; }
      var buffer := new char[MAX_PATH + 4];
      PrintJoined(buffer, start, v);
      assert IsAbsolute(Str(buffer));
      var _ := SimplifyPath(buffer);
      var n := StrLen(buffer, 0, Str(buffer));
      if n <= MAX_PATH {
        full := buffer;
      }
    }

    method ChangeDir(start: array<char>, asked: array<char>, isDir: string -> bool)
      requires Valid() && IsCString(asked) && asked != workingDir && asked != start && start != workingDir
      requires IsCString(start) && (Str(start) == "" || IsAbsolute(Str(start)))
      modifies workingDir, asked
      ensures Valid()
      ensures Str(workingDir) == Step(old(Str(workingDir)), Cwd(old(Str(asked)), Str(start), isDir))
      ensures NothingCut(old(Str(workingDir)), Str(start), old(Str(asked))) ==>
        GoesWhereAsked(old(Str(workingDir)), Str(start), old(Str(asked)), isDir, Str(workingDir))
    {
      ghost var cwd := Str(workingDir);
      VirtualPathIsNormal(cwd, Some(Str(asked)));
      ghost var a := Str(asked);
      var full, v := BuildPath(start, asked);
      if full != null {
        var n := StrLen(full, 0, Str(full));
        assert full[..n] == Str(full);
        if isDir(full[..n]) {
          Copy(workingDir, v);
        }
      }
      if NothingCut(cwd, Str(start), a) { CwdGoesWhereAsked(cwd, Str(start), a, isDir); }
    }

    method ChangeDirUp()
      requires Valid()
      modifies workingDir
      ensures Valid() && Str(workingDir) == Step(old(Str(workingDir)), Cdup)
      ensures var names := Names(old(Str(workingDir)));
        Names(Str(workingDir)) == if names == [] then [] else names[..|names| - 1]
    {
      ghost var cwd := Str(workingDir);
      var n := StrLen(workingDir, 0, cwd);
      workingDir[n], workingDir[n + 1], workingDir[n + 2] := '/', '.', '.';
      workingDir[n + 3] := NUL;
      assert workingDir[..n] == cwd;
      assert workingDir[..n + 3] == cwd + "/..";
      HoldsOne(workingDir, cwd + "/..");
      NormalIsAbsolute(cwd);
      CdupDropsLast(cwd);
      var _ := SimplifyPath(workingDir);
    }

    method LogOut()
      requires Valid()
      modifies workingDir
      ensures Valid() && Str(workingDir) == Step(old(Str(workingDir)), User) == "/"
    {
      StrCpy(workingDir, "/");
      HoldsOne(workingDir, "/");
      RootIsWorkingDir();
    }
  }
}
