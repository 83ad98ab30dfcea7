// Cutting a string into fields at separator characters.  The same cut serves
// the path rewriter ('/' and '\'), the lookup of a path in Redis ('/') and the
// command channel (CR, LF and NUL).

module Fields {

  /** The fields of s, cut at every separator: n separators give n + 1 fields. */
  function Split(s: string, seps: set<char>): (fields: seq<string>)
    ensures |fields| >= 1
  {
    if s == "" then [""]
    else
      var rest := Split(s[1..], seps);
      if s[0] in seps then [""] + rest else [[s[0]] + rest[0]] + rest[1..]
  }

  ghost predicate Plain(s: string, seps: set<char>) {
    forall i :: 0 <= i < |s| ==> s[i] !in seps
  }

  /** A separator is a clean cut: what stands on each side is split on its own. */
  lemma {:induction false} SplitAtSeparator(x: string, c: char, y: string, seps: set<char>)
    requires c in seps
    ensures Split(x + [c] + y, seps) == Split(x, seps) + Split(y, seps)
  {
    var s := x + [c] + y;
    if x == "" {
      assert s[1..] == y;
    } else {
      assert s[1..] == x[1..] + [c] + y;
      SplitAtSeparator(x[1..], c, y, seps);
    }
  }

  lemma {:induction false} SplitPlain(x: string, seps: set<char>)
    requires Plain(x, seps)
    ensures Split(x, seps) == [x]
  {
    if x != "" {
      SplitPlain(x[1..], seps);
      assert [x[0]] + x[1..] == x;
    }
  }

  /** A character that is no separator joins the last field. */
  lemma {:induction false} SplitAppend(s: string, c: char, seps: set<char>)
    requires c !in seps
    ensures var fields := Split(s, seps);
      Split(s + [c], seps) == fields[..|fields| - 1] + [fields[|fields| - 1] + [c]]
  {
    if s == "" {
      SplitPlain([c], seps);
      assert s + [c] == [c] && "" + [c] == [c];
    } else {
      SplitAppend(s[1..], c, seps);
      assert (s + [c])[1..] == s[1..] + [c] && (s + [c])[0] == s[0];
      var rest := Split(s[1..], seps);
      var front, last := rest[..|rest| - 1], rest[|rest| - 1];
      if s[0] !in seps {
        if front == [] {
          assert [s[0]] + (last + [c]) == ([s[0]] + last) + [c];
        }
      } else {
        assert ([""] + rest)[..|rest|] == [""] + front;
      }
    }
  }

  /** A cut anywhere splits one field in two. */
  lemma {:induction false} SplitConcat(x: string, y: string, seps: set<char>)
    ensures var a, b := Split(x, seps), Split(y, seps);
      Split(x + y, seps) == a[..|a| - 1] + [a[|a| - 1] + b[0]] + b[1..]
    decreases |y|
  {
    var a := Split(x, seps);
    var last := a[|a| - 1];
    if y == "" {
      assert x + y == x && last + "" == last;
    } else {
      var c, rest := y[0], Split(y[1..], seps);
      assert x + y == x + [c] + y[1..];
      if c in seps {
        SplitAtSeparator(x, c, y[1..], seps);
        assert last + "" == last;
      } else {
        SplitAppend(x, c, seps);
        SplitConcat(x + [c], y[1..], seps);
        assert (last + [c]) + rest[0] == last + ([c] + rest[0]);
      }
    }
  }

  /** No field holds a separator, and fields are made of characters of s. */
  lemma {:induction false} SplitIsPlain(s: string, seps: set<char>)
    ensures forall f :: f in Split(s, seps) ==> Plain(f, seps) && forall c :: c in f ==> c in s
  {
    if s != "" {
      var rest := Split(s[1..], seps);
      SplitIsPlain(s[1..], seps);
      forall f | f in Split(s, seps)
        ensures Plain(f, seps) && forall c :: c in f ==> c in s
      {
        if s[0] !in seps && f == [s[0]] + rest[0] {
          assert rest[0] in rest;
        } else if f != "" {
          assert f in rest;
        }
      }
    }
  }
}
