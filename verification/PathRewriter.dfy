// CFtpServer::SimplifyPath: an in-place rewriter over a char buffer.  Every
// phase keeps the names the path stands for and establishes one more piece of
// the normal form; together they compute Paths.Normalize.

module PathRewriter {
  import opened Fields
  import opened Paths
  import opened CStrings

  // ---- What the phases establish ------------------------------------------

  ghost predicate Slashed(s: string) {
    s != "" && s[0] == '/' && '\\' !in s
  }

  ghost predicate DoubleAt(s: string, i: int) {
    0 <= i && i + 1 < |s| && s[i] == '/' && s[i + 1] == '/'
  }

  ghost predicate SlashDotAt(s: string, i: int) {
    0 <= i && i + 1 < |s| && s[i] == '/' && s[i + 1] == '.'
  }

  ghost predicate MidDotAt(s: string, i: int) {
    SlashDotAt(s, i) && i + 2 < |s| && s[i + 2] == '/'
  }

  ghost predicate SlashDotDotAt(s: string, i: int) {
    SlashDotAt(s, i) && i + 2 < |s| && s[i + 2] == '.'
  }

  /** What the four strstr patterns find. */
  lemma Patterns(s: string)
    ensures forall i {:trigger DoubleAt(s, i)} {:trigger Occurs(s, i, "//")} ::
      Occurs(s, i, "//") <==> DoubleAt(s, i)
    ensures forall i {:trigger MidDotAt(s, i)} {:trigger Occurs(s, i, "/./")} ::
      Occurs(s, i, "/./") <==> MidDotAt(s, i)
    ensures forall i {:trigger SlashDotAt(s, i)} {:trigger Occurs(s, i, "/.")} ::
      Occurs(s, i, "/.") <==> SlashDotAt(s, i)
    ensures forall i {:trigger SlashDotDotAt(s, i)} {:trigger Occurs(s, i, "/..")} ::
      Occurs(s, i, "/..") <==> SlashDotDotAt(s, i)
  {
  }

  ghost predicate NoDoubleSlash(s: string) {
    forall i :: !DoubleAt(s, i)
  }

  /** The slash at i is followed by a field ".". */
  ghost predicate DotAt(s: string, i: int) {
    SlashDotAt(s, i) && (i + 2 == |s| || s[i + 2] == '/')
  }

  /** The slash at i is followed by a field "..". */
  ghost predicate DotDotAt(s: string, i: int) {
    SlashDotDotAt(s, i) && (i + 3 == |s| || s[i + 3] == '/')
  }

  ghost predicate NoMidDot(s: string) {
    forall i :: !MidDotAt(s, i)
  }

  ghost predicate Tidy(s: string) {
    Slashed(s) && NoDoubleSlash(s) && forall i :: !DotAt(s, i)
  }

  ghost predicate NoDotDotBefore(s: string, n: int) {
    forall i :: 0 <= i < n ==> !DotDotAt(s, i)
  }

  // ---- Each rewriting step keeps the names ---------------------------------

  lemma {:induction false} BackslashKeepsFields(s: string, i: nat)
    requires i < |s| && s[i] == '\\'
    ensures Split(s[i := '/'], SEPARATORS) == Split(s, SEPARATORS)
  {
    var x, y := s[..i], s[i + 1..];
    assert s == x + ['\\'] + y && s[i := '/'] == x + ['/'] + y;
    SplitAtSeparator(x, '\\', y, SEPARATORS);
    SplitAtSeparator(x, '/', y, SEPARATORS);
  }

  /** "//" to "/": the empty field between them meant nothing. */
  lemma DoubleSlashKeepsNames(s: string, a: nat)
    requires DoubleAt(s, a)
    ensures Names(s[..a] + s[a + 1..]) == Names(s)
    ensures Slashed(s) ==> Slashed(s[..a] + s[a + 1..])
  {
    var x, y := s[..a], s[a + 2..];
    assert s == (x + ['/'] + "") + ['/'] + y && s[..a] + s[a + 1..] == x + ['/'] + y;
    NamesOfLast(x, '/', "");
    NamesAtSeparator(x + ['/'] + "", '/', y);
    NamesAtSeparator(x, '/', y);
  }

  /** "/./" to "/": the field "." meant nothing. */
  lemma MidDotKeepsNames(s: string, a: nat)
    requires a + 2 < |s| && s[a] == '/' && s[a + 1] == '.' && s[a + 2] == '/'
    ensures Names(s[..a] + s[a + 2..]) == Names(s)
    ensures Slashed(s) && NoDoubleSlash(s) ==>
      Slashed(s[..a] + s[a + 2..]) && NoDoubleSlash(s[..a] + s[a + 2..])
  {
    var x, y := s[..a], s[a + 3..];
    assert s == (x + ['/'] + ".") + ['/'] + y && s[..a] + s[a + 2..] == x + ['/'] + y;
    NamesOfLast(x, '/', ".");
    NamesAtSeparator(x + ['/'] + ".", '/', y);
    NamesAtSeparator(x, '/', y);
    if Slashed(s) && NoDoubleSlash(s) {
      var t := s[..a] + s[a + 2..];
      forall i ensures !DoubleAt(t, i) {
        assert !DoubleAt(s, i) && !DoubleAt(s, i + 2);
      }
    }
  }

  /** A closing "/." to "/". */
  lemma EndDotKeepsNames(s: string, a: nat)
    requires a + 2 == |s| && s[a] == '/' && s[a + 1] == '.'
    ensures Names(s[..a + 1]) == Names(s)
    ensures Slashed(s) && NoDoubleSlash(s) && NoMidDot(s) ==>
      Slashed(s[..a + 1]) && NoDoubleSlash(s[..a + 1]) && NoMidDot(s[..a + 1])
  {
    var x := s[..a];
    assert s == x + ['/'] + "." && s[..a + 1] == x + ['/'] + "";
    NamesOfLast(x, '/', ".");
    NamesOfLast(x, '/', "");
    if Slashed(s) && NoDoubleSlash(s) && NoMidDot(s) {
      var t := s[..a + 1];
      forall i ensures !DoubleAt(t, i) && !MidDotAt(t, i) {
        assert !DoubleAt(s, i) && !MidDotAt(s, i);
      }
    }
  }

  /** "/.." in front pops nothing. */
  lemma RootDotDotKeepsNames(s: string)
    requires DotDotAt(s, 0)
    ensures |s| > 3 ==> Names(s[3..]) == Names(s)
    ensures |s| == 3 ==> Names(s[..1]) == Names(s)
  {
    var head := "" + ['/'] + "..";
    NamesOfLast("", '/', "..");
    EmptyHasNoNames();
    if |s| == 3 {
      assert s == head && s[..1] == "" + ['/'] + "";
      NamesOfLast("", '/', "");
    } else {
      assert s == head + ['/'] + s[4..] && s[3..] == "" + ['/'] + s[4..];
      NamesAtSeparator(head, '/', s[4..]);
      NamesAtSeparator("", '/', s[4..]);
    }
  }

  /** What is left of s once "/field/.." (from slash b to slash a and "..") is cut out. */
  ghost function CutOut(s: string, b: nat, a: nat): string
    requires b < a && a + 3 <= |s|
  {
    if b == 0 && a + 3 == |s| then s[..1] else s[..b] + s[a + 3..]
  }

  lemma PopKeepsNames(x: string, field: string)
    requires IsName(field)
    ensures Names(x + ['/'] + field + ['/'] + "..") == Names(x)
  {
    NamesOfLast(x, '/', field);
    NamesOfLast(x + ['/'] + field, '/', "..");
  }

  lemma FieldBetween(s: string, b: nat, a: nat)
    requires Tidy(s) && NoDotDotBefore(s, a) && b < a < |s| && s[a] == '/'
    requires s[b] == '/' && forall j :: b < j < a ==> s[j] != '/'
    ensures IsName(s[b + 1..a])
  {
    var field := s[b + 1..a];
    assert !DoubleAt(s, b) && !DotAt(s, b) && !DotDotAt(s, b);
    assert field != "." && field != "..";
    assert Plain(field, SEPARATORS);
  }

  /** "/field/.." pops the field it follows. */
  lemma CutOutKeepsNames(s: string, b: nat, a: nat)
    requires Tidy(s) && NoDotDotBefore(s, a) && DotDotAt(s, a)
    requires b < a && s[b] == '/' && forall j :: b < j < a ==> s[j] != '/'
    ensures Names(CutOut(s, b, a)) == Names(s)
  {
    var x, field := s[..b], s[b + 1..a];
    FieldBetween(s, b, a);
    PopKeepsNames(x, field);
    var head := x + ['/'] + field + ['/'] + "..";
    if a + 3 == |s| {
      assert s == head;
      if b == 0 {
        assert s[..1] == x + ['/'] + "";
        NamesOfLast(x, '/', "");
      } else {
        assert CutOut(s, b, a) == x;
      }
    } else {
      var y := s[a + 4..];
      assert s == head + ['/'] + y && CutOut(s, b, a) == x + ['/'] + y;
      NamesAtSeparator(head, '/', y);
      NamesAtSeparator(x, '/', y);
    }
  }

  lemma CutOutKeepsTidy(s: string, b: nat, a: nat)
    requires Tidy(s) && DotDotAt(s, a) && b < a && s[b] == '/'
    ensures Tidy(CutOut(s, b, a))
  {
    var t, cut := CutOut(s, b, a), a + 3 - b;
    if !(b == 0 && a + 3 == |s|) {
      assert forall j :: b <= j < |t| ==> t[j] == s[j + cut];
      forall i
        ensures !DoubleAt(t, i) && !DotAt(t, i)
      {
        assert !DoubleAt(s, i) && !DoubleAt(s, i + cut);
        assert !DotAt(s, i) && !DotAt(s, i + cut);
      }
    }
  }

  // ---- The normal form -----------------------------------------------------

  ghost predicate Canonical(s: string) {
    Tidy(s) && NoDotDotBefore(s, |s|) && (|s| > 1 ==> s[|s| - 1] != '/')
  }

  ghost function LastSlash(s: string): (k: nat)
    requires s != "" && s[0] == '/'
    ensures k < |s| && s[k] == '/' && forall j :: k < j < |s| ==> s[j] != '/'
  {
    if s[|s| - 1] == '/' then |s| - 1 else LastSlash(s[..|s| - 1])
  }

  /** A string in canonical shape is the rendering of its own names. */
  lemma {:induction false} CanonicalIsNormal(s: string)
    requires Canonical(s)
    ensures IsNormal(s)
    decreases |s|
  {
    var k := LastSlash(s);
    var x, field := s[..k], s[k + 1..];
    assert s == x + ['/'] + field;
    NamesOfLast(x, '/', field);
    EmptyHasNoNames();
    if |s| > 1 {
      assert !DotAt(s, k) && !DotDotAt(s, k);
      assert field != "" && field != "." && field != "..";
      RenderStep(Names(x), field);
      if k == 0 {
        assert x == "";
      } else {
        assert Canonical(x) by {
          assert !DoubleAt(s, k - 1);
          forall i ensures !DoubleAt(x, i) && !DotAt(x, i) && !DotDotAt(x, i) {
            assert !DotAt(s, i) && !DoubleAt(s, i);
            if 0 <= i < |s| { assert !DotDotAt(s, i); }
          }
        }
        CanonicalIsNormal(x);
        assert Names(x) != [] by {
          assert !DoubleAt(s, 0);
        }
      }
    }
  }

  // ---- The phases ------------------------------------------------------------

  predicate IsAlpha(c: char) {
    'a' <= c <= 'z' || 'A' <= c <= 'Z'
  }

  method ReplaceBackslashes(p: array<char>, ghost s: string) returns (ghost t: string)
    requires Holds(p, s) && s != ""
    modifies p
    ensures Holds(p, t) && |t| == |s| && '\\' !in t
    ensures IsAbsolute(s) ==> Slashed(t) && Names(t) == Names(s)
  {
    t := s;
    var a := 0;
    while p[a] != NUL
      invariant a <= |t| && |t| == |s| && Holds(p, t)
      invariant '\\' !in t[..a]
      invariant Split(t, SEPARATORS) == Split(s, SEPARATORS)
      invariant IsAbsolute(s) ==> IsAbsolute(t)
      decreases |s| - a
    {
      CharAt(p, a, t);
      if p[a] == '\\' {
        BackslashKeepsFields(t, a);
        p[a] := '/';
        t := t[a := '/'];
      }
      assert t[..a + 1] == t[..a] + [t[a]];
      a := a + 1;
    }
    CharAt(p, a, t);
    assert t[..a] == t;
  }

  method CollapseSlashes(p: array<char>, ghost s: string) returns (ghost t: string)
    requires Holds(p, s) && s != ""
    modifies p
    ensures Holds(p, t) && 0 < |t| <= |s|
    ensures Slashed(s) ==> Slashed(t) && NoDoubleSlash(t) && Names(t) == Names(s)
  {
    t := s;
    while true
      invariant Holds(p, t) && 0 < |t| <= |s|
      invariant Slashed(s) ==> Slashed(t) && Names(t) == Names(s)
      decreases |t|
    {
      var a := StrStr(p, 0, "//", t);
      assert a == -1 ==> NoDoubleSlash(t) by { Patterns(t); }
      if a == -1 {
        return;
      }
      assert DoubleAt(t, a) by { Patterns(t); }
      DoubleSlashKeepsNames(t, a);
      t := Remove(p, a, 1, t);
    }
  }

  method CollapseDots(p: array<char>, ghost s: string) returns (ghost t: string)
    requires Holds(p, s) && s != ""
    modifies p
    ensures Holds(p, t) && 0 < |t| <= |s|
    ensures Slashed(s) && NoDoubleSlash(s) ==>
      Slashed(t) && NoDoubleSlash(t) && NoMidDot(t) && Names(t) == Names(s)
  {
    t := s;
    while true
      invariant Holds(p, t) && 0 < |t| <= |s|
      invariant Slashed(s) && NoDoubleSlash(s) ==> Slashed(t) && NoDoubleSlash(t) && Names(t) == Names(s)
      decreases |t|
    {
      var a := StrStr(p, 0, "/./", t);
      Patterns(t);
      if a == -1 {
        return;
      }
      assert MidDotAt(t, a);
      MidDotKeepsNames(t, a);
      t := Remove(p, a, 2, t);
    }
  }

  /** A leading "./" or "../" of a relative path. */
  method StripLeadingDots(p: array<char>, ghost s: string) returns (ghost t: string)
    requires Holds(p, s) && s != ""
    modifies p
    ensures Holds(p, t) && 0 < |t| <= |s|
    ensures Slashed(s) ==> t == s
  {
    t := s;
    var dot := StartsWith(p, 0, "./", t);
    if dot {
      assert t[0] == '.';
      t := Remove(p, 0, 1, t);
    }
    var dotDot := StartsWith(p, 0, "../", t);
    if dotDot {
      assert t[0] == '.' && t[1] == '.';
      t := Remove(p, 0, 2, t);
    }
  }

  /** Drops the '.' of a path that ends in "/.". */
  method StripEndingDot(p: array<char>, ghost s: string) returns (ghost t: string)
    requires Holds(p, s) && s != ""
    modifies p
    ensures Holds(p, t) && 0 < |t| <= |s|
    ensures Slashed(s) && NoDoubleSlash(s) && NoMidDot(s) ==> Tidy(t) && Names(t) == Names(s)
  {
    t := s;
    var a := StrStr(p, 0, "/.", t);
    Patterns(t);
    if a != -1 {
      assert SlashDotAt(t, a);
      CharAt(p, a + 2, t);
      if p[a + 2] == NUL {
        EndDotKeepsNames(t, a);
        t := Terminate(p, a + 1, t);
      }
    }
    a := 0;
    while true
      invariant Holds(p, t) && 0 < |t| <= |s| && 0 <= a <= |t|
      invariant Slashed(s) && NoDoubleSlash(s) && NoMidDot(s) ==>
        Slashed(t) && NoDoubleSlash(t) && NoMidDot(t) && Names(t) == Names(s)
      invariant forall i :: 0 <= i < a ==> !(SlashDotAt(t, i) && i + 2 == |t|)
      decreases |t|, |t| - a
    {
      var next := StrStr(p, a, "/.", t);
      Patterns(t);
      if next == -1 {
        forall i | NoMidDot(t) ensures !DotAt(t, i) { assert !MidDotAt(t, i); }
        return;
      }
      a := next;
      assert SlashDotAt(t, a);
      CharAt(p, a + 2, t);
      if p[a + 2] == NUL {
        EndDotKeepsNames(t, a);
        t := Terminate(p, a + 1, t);
      } else {
        a := a + 1;
      }
    }
  }

  /** Backward scan from the slash at a: the slash before it, or 0 when there is none. */
  method ScanBack(p: array<char>, a: nat, ghost s: string) returns (b: nat, found: bool)
    requires Holds(p, s) && 0 < a < |s|
    ensures b < a && forall j :: b < j < a ==> s[j] != '/'
    ensures found == (s[b] == '/') && (!found ==> b == 0)
  {
    b := a;
    found := false;
    while b != 0
      invariant b <= a && forall j :: b <= j < a ==> s[j] != '/'
    {
      b := b - 1;
      CharAt(p, b, s);
      if p[b] == '/' {
        found := true;
        return;
      }
    }
  }

  /** Cuts "/field/.." out, from the slash at b to the ".." after slash a; a relative path
      whose first field would go keeps it. */
  method CutField(p: array<char>, a: nat, b: nat, found: bool, ghost s: string) returns (ghost t: string)
    requires Holds(p, s) && b < a && DotDotAt(s, a)
    requires found == (s[b] == '/') && (!found ==> b == 0)
    modifies p
    ensures Holds(p, t) && 0 < |t| < |s|
    ensures s[0] == '/' ==> t == CutOut(s, b, a)
  {
    CharAt(p, a + 3, s);
    CharAt(p, 0, s);
    CharAt(p, 1, s);
    if found {
      if b == 0 || (b == 2 && IsAlpha(p[0]) && p[1] == ':') {
        if p[a + 3] == '/' {
          t := Remove(p, b, a + 3 - b, s);
        } else {
          t := Terminate(p, b + 1, s);
        }
      } else {
        t := Remove(p, b, a + 3 - b, s);
      }
    } else if p[a + 3] == '/' {
      t := Remove(p, a, 3, s);
    } else {
      t := Terminate(p, a + 1, s);
    }
  }

  /** The ".." after slash a pops the field in front of it. */
  method PopField(p: array<char>, a: nat, ghost s: string) returns (ghost t: string)
    requires Holds(p, s) && 0 < a && DotDotAt(s, a)
    modifies p
    ensures Holds(p, t) && 0 < |t| < |s|
    ensures Tidy(s) && NoDotDotBefore(s, a) ==> Tidy(t) && Names(t) == Names(s)
  {
    var b, found := ScanBack(p, a, s);
    if Tidy(s) && NoDotDotBefore(s, a) {
      CutOutKeepsNames(s, b, a);
      CutOutKeepsTidy(s, b, a);
    }
    t := CutField(p, a, b, found, s);
  }

  lemma RootCutKeepsTidy(s: string)
    requires DotDotAt(s, 0) && Tidy(s)
    ensures |s| > 3 ==> Tidy(s[3..])
    ensures |s| == 3 ==> Tidy(s[..1]) && NoDotDotBefore(s[..1], 1)
  {
    if |s| > 3 {
      var t := s[3..];
      forall i ensures !DotAt(t, i) && !DoubleAt(t, i) { assert !DotAt(s, i + 3) && !DoubleAt(s, i + 3); }
    }
  }

  /** "/.." in front pops nothing; when it is the whole path, "/" is left. */
  method PopAtRoot(p: array<char>, ghost s: string) returns (ghost t: string, ends: bool)
    requires Holds(p, s) && DotDotAt(s, 0)
    modifies p
    ensures Holds(p, t) && 0 < |t| < |s|
    ensures Tidy(s) ==> Tidy(t) && Names(t) == Names(s)
    ensures ends ==> NoDotDotBefore(t, |t|)
  {
    RootDotDotKeepsNames(s);
    if Tidy(s) { RootCutKeepsTidy(s); }
    CharAt(p, 3, s);
    if p[3] == '/' {
      t := Remove(p, 0, 3, s);
      assert t == s[3..];
      ends := false;
    } else {
      t := Terminate(p, 1, s);
      ends := true;
    }
  }

  method ResolveDotDots(p: array<char>, ghost s: string) returns (ghost t: string)
    requires Holds(p, s) && s != ""
    modifies p
    ensures Holds(p, t) && 0 < |t| <= |s|
    ensures Tidy(s) ==> Tidy(t) && NoDotDotBefore(t, |t|) && Names(t) == Names(s)
  {
    t := s;
    var a: int := 0;
    while a != -1
      invariant Holds(p, t) && 0 < |t| <= |s| && -1 <= a <= |t|
      invariant Tidy(s) ==> Tidy(t) && Names(t) == Names(s)
      invariant NoDotDotBefore(t, if a == -1 then |t| else a)
      decreases |t|, if a == -1 then 0 else 1 + |t| - a
    {
      var next := StrStr(p, a, "/..", t);
      Patterns(t);
      if next == -1 {
        return;
      }
      a := next;
      assert SlashDotDotAt(t, a);
      CharAt(p, a + 3, t);
      if p[a + 3] == '/' || p[a + 3] == NUL {
        assert DotDotAt(t, a);
        if a == 0 {
          var ends: bool;
          t, ends := PopAtRoot(p, t);
          if ends { return; }
        } else {
          t := PopField(p, a, t);
          a := StrStr(p, 0, "/..", t);
          Patterns(t);
        }
      } else {
        a := a + 1;
      }
    }
  }

  method StripEndingSlash(p: array<char>, ghost s: string) returns (ghost t: string)
    requires Holds(p, s) && s != ""
    modifies p
    ensures Holds(p, t) && 0 < |t| <= |s|
    ensures Tidy(s) && NoDotDotBefore(s, |s|) ==> Canonical(t) && Names(t) == Names(s)
  {
    t := s;
    var len := StrLen(p, 0, s);
    CharAt(p, 0, s);
    CharAt(p, 1, s);
    CharAt(p, len - 1, s);
    if IsAlpha(p[0]) && p[1] == ':' && p[2] == '/' {
      if len > 3 && p[len - 1] == '/' {
        t := Terminate(p, len - 1, s);
      }
    } else if p[0] == '/' {
      if len > 1 && p[len - 1] == '/' {
        EndSlashGoes(s);
        t := Terminate(p, len - 1, s);
      }
    } else if p[len - 1] == '/' {
      t := Terminate(p, len - 1, s);
    }
  }

  lemma EndSlashGoes(s: string)
    requires |s| > 1 && s[|s| - 1] == '/'
    ensures Names(s[..|s| - 1]) == Names(s)
    ensures Tidy(s) && NoDotDotBefore(s, |s|) ==> Canonical(s[..|s| - 1])
  {
    var t := s[..|s| - 1];
    assert s == t + ['/'] + "";
    NamesOfLast(t, '/', "");
    if Tidy(s) && NoDotDotBefore(s, |s|) {
      assert !DoubleAt(s, |s| - 2);
      forall i
        ensures !DoubleAt(t, i) && !DotAt(t, i) && !DotDotAt(t, i)
      {
        assert !DotAt(s, i) && !DoubleAt(s, i);
        if 0 <= i < |s| { assert !DotDotAt(s, i); }
      }
    }
  }

  /** The whole rewriter.  For any C string it stays inside the string it was
      given and terminates; for an absolute path it leaves exactly the
      reference normal form. */
  method SimplifyPath(p: array<char>) returns (ok: bool)
    requires IsCString(p)
    modifies p
    ensures IsCString(p) && |Str(p)| <= |old(Str(p))|
    ensures ok == (old(Str(p)) != "")
    ensures !ok ==> Str(p) == ""
    ensures IsAbsolute(old(Str(p))) ==> Str(p) == Normalize(old(Str(p)))
  {
    ghost var s := Str(p);
    CharAt(p, 0, s);
    if p[0] == NUL {
      return false;
    }
    ghost var t := ReplaceBackslashes(p, s);
    t := CollapseSlashes(p, t);
    t := CollapseDots(p, t);
    t := StripLeadingDots(p, t);
    t := StripEndingDot(p, t);
    t := ResolveDotDots(p, t);
    t := StripEndingSlash(p, t);
    if IsAbsolute(s) {
      CanonicalIsNormal(t);
      NormalizeIdempotent(s);
    }
    ok := true;
    CharAt(p, 0, t);
    CharAt(p, 1, t);
    var dotDot := StartsWith(p, 0, "..", t);
    var dot := StartsWith(p, 0, ".", t);
    if p[0] == NUL || (dotDot && p[2] == NUL) || (dot && p[1] == NUL) {
      assert t[0] == '.';
      StrCpy(p, "/");
      t := "/";
    }
    HoldsOne(p, t);
  }
}
