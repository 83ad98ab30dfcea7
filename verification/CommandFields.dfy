// What a byte stream on the control connection means: the fields that CR, LF or
// NUL terminate, without the empty ones.

module CommandFields {
  import opened Fields
  import Paths

  const MAX_COMMAND_LINE_LEN: nat := Paths.MAX_PATH + 32
  const TERMINATORS: set<char> := {'\r', '\n', '\0'}

  /** The fields that a terminator has closed. */
  function Closed(s: string): seq<string> {
    var fields := Split(s, TERMINATORS);
    fields[..|fields| - 1]
  }

  /** What has come in since the last terminator. */
  function Rest(s: string): string {
    var fields := Split(s, TERMINATORS);
    fields[|fields| - 1]
  }

  function NonEmpty(fields: seq<string>): seq<string> {
    if fields == [] then []
    else NonEmpty(fields[..|fields| - 1])
         + (if fields[|fields| - 1] == "" then [] else [fields[|fields| - 1]])
  }

  /** The command lines of a stream. */
  function Lines(s: string): seq<string> {
    NonEmpty(Closed(s))
  }

  /** Every terminated field fits. */
  ghost predicate AllFit(s: string) {
    forall f :: f in Closed(s) ==> |f| < MAX_COMMAND_LINE_LEN
  }

  lemma AppendTerminator(s: string, c: char)
    requires c in TERMINATORS
    ensures Closed(s + [c]) == Closed(s) + [Rest(s)] && Rest(s + [c]) == ""
    ensures Lines(s + [c]) == Lines(s) + if Rest(s) == "" then [] else [Rest(s)]
  {
    SplitAtSeparator(s, c, "", TERMINATORS);
    assert s + [c] + "" == s + [c];
    assert Split("", TERMINATORS) == [""];
    assert (Closed(s) + [Rest(s)])[..|Closed(s)|] == Closed(s);
  }

  lemma AppendPlain(s: string, c: char)
    requires c !in TERMINATORS
    ensures Closed(s + [c]) == Closed(s) && Rest(s + [c]) == Rest(s) + [c]
  {
    SplitAppend(s, c, TERMINATORS);
  }

  lemma {:induction false} ClosedGrows(x: string, y: string)
    ensures Closed(x) <= Closed(x + y)
    decreases |y|
  {
    if y == "" {
      assert x + y == x;
    } else {
      var front, c := y[..|y| - 1], y[|y| - 1];
      assert x + y == (x + front) + [c];
      ClosedGrows(x, front);
      if c in TERMINATORS { AppendTerminator(x + front, c); } else { AppendPlain(x + front, c); }
    }
  }

  lemma AllFitShrinks(x: string, y: string)
    requires AllFit(x + y)
    ensures AllFit(x)
  {
    ClosedGrows(x, y);
    forall f | f in Closed(x)
      ensures |f| < MAX_COMMAND_LINE_LEN
    {
      assert f in Closed(x + y);
    }
  }

  lemma {:induction false} NonEmptyConcat(a: seq<string>, b: seq<string>)
    ensures NonEmpty(a + b) == NonEmpty(a) + NonEmpty(b)
  {
    if b == [] {
      assert a + b == a;
    } else {
      assert (a + b)[..|a + b| - 1] == a + b[..|b| - 1];
      NonEmptyConcat(a, b[..|b| - 1]);
    }
  }

  /** What comes behind a terminator has lines of its own. */
  lemma LinesConcat(x: string, c: char, y: string)
    requires c in TERMINATORS
    ensures Lines(x + [c] + y) == Lines(x + [c]) + Lines(y)
  {
    SplitAtSeparator(x, c, y, TERMINATORS);
    AppendTerminator(x, c);
    var a, b := Split(x, TERMINATORS), Split(y, TERMINATORS);
    assert (a + b)[..|a + b| - 1] == a + b[..|b| - 1];
    assert a[..|a| - 1] + [a[|a| - 1]] == a;
    NonEmptyConcat(a, b[..|b| - 1]);
  }

  /** No carriage return, no line feed and no NUL. */
  predicate NoBreak(s: string) {
    forall c :: c in s ==> c != '\r' && c != '\n' && c != '\0'
  }

  /** What can be handed over as a line. */
  predicate IsLine(l: string) {
    0 < |l| < MAX_COMMAND_LINE_LEN && NoBreak(l)
  }

  ghost predicate AreLines(lines: seq<string>) {
    forall l :: l in lines ==> IsLine(l)
  }

  lemma LinesSpelledOut(received: string, lines: seq<string>)
    requires AreLines(lines)
    ensures forall l :: l in lines ==> 0 < |l| < 4128 && '\r' !in l && '\n' !in l && '\0' !in l
    ensures AllFit(received) <==> forall f :: f in Closed(received) ==> |f| < 4128
  {
    forall l | l in lines
      ensures 0 < |l| < 4128 && '\r' !in l && '\n' !in l && '\0' !in l
    {
      assert IsLine(l);
    }
  }

  /** Lines, spelled out: what stands before the first of the three characters is the first
      line, unless it is empty, and without any of them there is no line. */
  lemma FirstLine(x: string, c: char, y: string)
    requires NoBreak(x) && (c == '\r' || c == '\n' || c == '\0')
    ensures Lines(x + [c] + y) == (if x == "" then [] else [x]) + Lines(y)
    ensures Lines(x) == []
  {
    forall i | 0 <= i < |x| ensures x[i] !in TERMINATORS { assert x[i] in x; }
    SplitPlain(x, TERMINATORS);
    AppendTerminator(x, c);
    LinesConcat(x, c, y);
  }

  lemma {:induction false} NonEmptyKeeps(fields: seq<string>, f: string)
    ensures f in NonEmpty(fields) <==> f in fields && f != ""
  {
    if fields != [] {
      NonEmptyKeeps(fields[..|fields| - 1], f);
      assert fields == fields[..|fields| - 1] + [fields[|fields| - 1]];
    }
  }

  /** A list of lines that all fit can only be the lines of a stream whose fields fit. */
  lemma LinesFitOnlyIf(s: string, delivered: seq<string>)
    requires delivered == Lines(s) && forall l :: l in delivered ==> |l| < MAX_COMMAND_LINE_LEN
    ensures AllFit(s)
  {
    forall f | f in Closed(s)
      ensures |f| < MAX_COMMAND_LINE_LEN
    {
      NonEmptyKeeps(Closed(s), f);
    }
  }

  // ---- The bookkeeping of the reader -----------------------------------------

  /** A reader that has looked at `seen`, has `tail` in front of it, has delivered
      `delivered` and holds `head` as the field under construction is in step with the
      stream, as long as the terminated fields of the stream fit.  While it flushes an
      overlong field it holds nothing. */
  ghost predicate InStep(received: string, seen: string, tail: string,
                         delivered: seq<string>, head: string, flush: bool) {
    && (AllFit(received) ==>
          received == seen + tail && Lines(seen) == delivered
          && if flush then |Rest(seen)| >= MAX_COMMAND_LINE_LEN else Rest(seen) == head)
    && NoBreak(head)
    && AreLines(delivered)
  }

  lemma StepPlain(received: string, seen: string, c: char, tail: string,
                  delivered: seq<string>, head: string, flush: bool)
    requires InStep(received, seen, [c] + tail, delivered, head, flush) && c !in TERMINATORS
    ensures InStep(received, seen + [c], tail, delivered, head + [c], flush)
  {
    AppendPlain(seen, c);
    assert seen + ([c] + tail) == (seen + [c]) + tail;
  }

  lemma StepTerminator(received: string, seen: string, c: char, tail: string,
                       delivered: seq<string>, head: string, flush: bool)
    requires InStep(received, seen, [c] + tail, delivered, head, flush) && c in TERMINATORS
    requires |head| < MAX_COMMAND_LINE_LEN
    ensures flush ==> !AllFit(received)
    ensures InStep(received, seen + [c], tail, if head == "" || flush then delivered else delivered + [head], "", false)
  {
    AppendTerminator(seen, c);
    assert seen + ([c] + tail) == (seen + [c]) + tail;
    if AllFit(received) {
      AllFitShrinks(seen + [c], tail);
      assert Rest(seen) in Closed(seen + [c]);
    }
  }

  lemma StepReceive(received: string, seen: string, bytes: string,
                    delivered: seq<string>, head: string, flush: bool)
    requires InStep(received, seen, "", delivered, head, flush)
    ensures InStep(received + bytes, seen, bytes, delivered, head, flush)
  {
    if AllFit(received + bytes) {
      AllFitShrinks(received, bytes);
      assert seen + "" == seen;
    }
  }

  /** With nothing left to parse, the lines delivered are those of the whole stream
      exactly when its terminated fields fit. */
  lemma NothingLeft(received: string, seen: string, delivered: seq<string>, head: string, flush: bool)
    requires InStep(received, seen, "", delivered, head, flush)
    ensures delivered == Lines(received) <==> AllFit(received)
  {
    assert seen + "" == seen;
    if delivered == Lines(received) {
      LinesFitOnlyIf(received, delivered);
    }
  }
}
