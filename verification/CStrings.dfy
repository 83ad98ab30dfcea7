// C strings in fixed buffers: the few string.h routines the server leans on,
// specified by the string a buffer holds (what stands before the first NUL).

module CStrings {

  const NUL: char := '\0'

  /** Buffer b holds exactly the C string s. */
  ghost predicate Holds(b: array<char>, s: string)
    reads b
  {
    |s| < b.Length && b[..|s|] == s && b[|s|] == NUL && NUL !in s
  }

  ghost predicate IsCString(b: array<char>)
    reads b
  {
    NUL in b[..]
  }

  ghost function UpToNul(s: string): (t: string)
    requires NUL in s
    ensures |t| < |s| && s[..|t|] == t && s[|t|] == NUL && NUL !in t
  {
    if s[0] == NUL then "" else [s[0]] + UpToNul(s[1..])
  }

  ghost function Str(b: array<char>): (s: string)
    requires IsCString(b)
    reads b
    ensures Holds(b, s)
  {
    UpToNul(b[..])
  }

  /** A buffer holds one C string at a time. */
  lemma HoldsOne(b: array<char>, s: string)
    requires Holds(b, s)
    ensures IsCString(b) && Str(b) == s
  {
    assert b[..][|s|] == NUL;
    var t := Str(b);
    assert forall i :: 0 <= i < |s| ==> s[i] == b[..|s|][i] == b[i];
    assert forall i :: 0 <= i < |t| ==> t[i] == b[..|t|][i] == b[i];
  }

  /** Character i of the buffer: NUL exactly at the end of the string. */
  lemma CharAt(b: array<char>, i: nat, s: string)
    requires Holds(b, s) && i <= |s|
    ensures b[i] == if i < |s| then s[i] else NUL
    ensures b[i] == NUL <==> i == |s|
  {
    assert i < |s| ==> s[i] == b[..|s|][i] && s[i] in s;
  }

  /** Pattern pat occurs in s at position i. */
  ghost predicate Occurs(s: string, i: int, pat: string) {
    0 <= i && i + |pat| <= |s| && forall j :: i <= j < i + |pat| ==> s[j] == pat[j - i]
  }

  method StrLen(b: array<char>, from: nat, ghost s: string) returns (n: nat)
    requires Holds(b, s) && from <= |s|
    ensures n == |s| - from
  {
    n := 0;
    while b[from + n] != NUL
      invariant from + n <= |s|
      decreases |s| - n
    {
      CharAt(b, from + n, s);
      n := n + 1;
    }
    CharAt(b, from + n, s);
  }

  /** strncmp(b + i, pat, |pat|) == 0. */
  method StartsWith(b: array<char>, i: nat, pat: string, ghost s: string) returns (yes: bool)
    requires Holds(b, s) && i <= |s| && NUL !in pat
    ensures yes == Occurs(s, i, pat)
  {
    var k := 0;
    while k < |pat| && b[i + k] == pat[k]
      invariant k <= |pat| && i + k <= |s|
      invariant forall j :: i <= j < i + k ==> s[j] == pat[j - i]
    {
      assert pat[k] in pat;
      CharAt(b, i + k, s);
      k := k + 1;
    }
    yes := k == |pat|;
    if k < |pat| {
      assert pat[k] in pat;
      CharAt(b, i + k, s);
    }
  }

  /** strstr(b + from, pat): the leftmost occurrence, or -1 for a null result. */
  method StrStr(b: array<char>, from: nat, pat: string, ghost s: string) returns (at: int)
    requires Holds(b, s) && from <= |s| && NUL !in pat && pat != ""
    ensures at == -1 || (from <= at && Occurs(s, at, pat))
    ensures forall i :: from <= i < (if at == -1 then |s| else at) ==> !Occurs(s, i, pat)
  {
    at := from;
    while b[at] != NUL
      invariant from <= at <= |s|
      invariant forall i :: from <= i < at ==> !Occurs(s, i, pat)
      decreases |s| - at
    {
      CharAt(b, at, s);
      var here := StartsWith(b, at, pat, s);
      if here { return; }
      at := at + 1;
    }
    CharAt(b, at, s);
    at := -1;
  }

  /** memmove(b + dst, b + src, n), for a move towards the head. */
  method MemMove(b: array<char>, dst: nat, src: nat, n: nat)
    requires dst <= src && src + n <= b.Length
    modifies b
    ensures b[..dst + n] == old(b[..dst]) + old(b[src..src + n])
  {
    var moved := b[src..src + n];
    forall k | 0 <= k < n {
      b[dst + k] := moved[k];
    }
  }

  /** Drops `count` characters at `at` by moving the tail, NUL included, down. */
  method Remove(b: array<char>, at: nat, count: nat, ghost s: string) returns (ghost t: string)
    requires Holds(b, s) && at + count <= |s|
    modifies b
    ensures t == s[..at] + s[at + count..]
    ensures Holds(b, t)
  {
    var tail := StrLen(b, at + count, s);
    t := s[..at] + s[at + count..];
    assert b[..|s| + 1] == s + [NUL];
    assert b[..at] == s[..at];
    assert b[at + count..at + count + (tail + 1)] == (s + [NUL])[at + count..];
    MemMove(b, at, at + count, tail + 1);
    assert b[..at + (tail + 1)] == t + [NUL];
    HoldsPrefix(b, t);
  }

  lemma HoldsPrefix(b: array<char>, t: string)
    requires |t| < b.Length && b[..|t| + 1] == t + [NUL] && NUL !in t
    ensures Holds(b, t)
  {
    assert b[..|t| + 1][|t|] == NUL;
    assert b[..|t|] == b[..|t| + 1][..|t|];
  }

  /** b[at] = '\0'. */
  method Terminate(b: array<char>, at: nat, ghost s: string) returns (ghost t: string)
    requires Holds(b, s) && at <= |s|
    modifies b
    ensures t == s[..at] && Holds(b, t)
  {
    b[at] := NUL;
    t := s[..at];
    assert forall k :: 0 <= k < at ==> b[k] == old(b[..|s|])[k] == s[k];
    assert b[..at] == t;
  }

  /** strcpy of a literal or of another buffer's string. */
  method StrCpy(b: array<char>, s: string)
    requires |s| < b.Length && NUL !in s
    modifies b
    ensures Holds(b, s)
  {
    forall k | 0 <= k < |s| {
      b[k] := s[k];
    }
    b[|s|] := NUL;
    assert b[..|s|] == s;
  }
}
