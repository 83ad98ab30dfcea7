// CClientEntry::ReceiveLine: command lines cut out of one reused buffer, with the
// bytes after a line kept for the next call.

module CommandReader {
  import opened Fields
  import opened CommandFields
  import opened Sequences

  /** One thing the control socket does next.  A script of events is the oracle for
      select and recv: it fixes how the stream is cut and when nothing comes. */
  datatype Event = Chunk(bytes: string) | Idle(expired: bool) | SelectFails | RecvFails

  datatype Readiness = Ready | Quiet(expired: bool) | Broken

  function Bytes(script: seq<Event>): string {
    if script == [] then ""
    else (if script[0].Chunk? then script[0].bytes else "") + Bytes(script[1..])
  }

  function Work(script: seq<Event>): nat {
    if script == [] then 0
    else 1 + (if script[0].Chunk? then |script[0].bytes| else 0) + Work(script[1..])
  }

  /** The peer sends, pauses and closes; nothing breaks and no timeout expires. */
  predicate Clean(script: seq<Event>) {
    forall e :: e in script ==> (e.Chunk? && e.bytes != "") || (e.Idle? && !e.expired)
  }

  function Before(received: string, n: nat): string {
    if n <= |received| then received[..|received| - n] else ""
  }

  lemma BeforeTail(received: string, seen: string, tail: string, delivered: seq<string>)
    requires InStep(received, seen, tail, delivered, "", false)
    ensures InStep(received, Before(received, |tail|), tail, delivered, "", false)
  {
    if AllFit(received) {
      assert Before(received, |tail|) == seen;
    }
  }

  // ---- The inner loop, byte by byte ------------------------------------------------

  /** The buffer, the length of the field under construction, how many bytes behind it are
      not parsed, whether an overlong field is being flushed, and the line cut out, if any. */
  datatype Cursor = Cursor(text: string, at: nat, left: nat, flush: bool, line: string)

  predicate InText(s: Cursor) {
    s.at + s.left <= |s.text|
  }

  /** memmove(text + dst, text + src, n). */
  function MovedDown(text: string, dst: nat, src: nat, n: nat): (moved: string)
    requires dst <= src && src + n <= |text|
    ensures |moved| == |text|
    ensures moved[..dst] == text[..dst] && moved[dst..dst + n] == text[src..src + n]
  {
    text[..dst] + text[src..src + n] + text[dst + n..]
  }

  /** What one turn of the loop does. */
  function Turn(s: Cursor): (t: Cursor)
    requires InText(s) && s.left > 0
    ensures InText(t) && t.left == s.left - 1
  {
    if s.text[s.at] !in TERMINATORS then s.(at := s.at + 1, left := s.left - 1)
    else if s.at > 0 && !s.flush then
      s.(text := s.text[s.at := '\0'], left := s.left - 1, line := s.text[..s.at])
    else
      s.(text := MovedDown(s.text, s.at, s.at + 1, s.left - 1), at := if s.flush then 0 else s.at,
         left := s.left - 1, flush := false)
  }

  function Scanned(s: Cursor): Cursor
    requires InText(s)
    decreases s.left
  {
    if s.left == 0 || s.line != "" then s else Scanned(Turn(s))
  }

  lemma PlainTurn(s: Cursor)
    requires InText(s) && s.line == "" && s.left > 0 && s.text[s.at] !in TERMINATORS
    ensures Scanned(s) == Scanned(s.(at := s.at + 1, left := s.left - 1))
  {
  }

  lemma {:induction false} PlainRun(s: Cursor, k: nat)
    requires InText(s) && s.line == "" && k <= s.left
    requires forall i :: s.at <= i < s.at + k ==> s.text[i] !in TERMINATORS
    ensures Scanned(s) == Scanned(s.(at := s.at + k, left := s.left - k))
    decreases k
  {
    if k > 0 {
      PlainRun(s, k - 1);
      PlainTurn(s.(at := s.at + (k - 1), left := s.left - (k - 1)));
    }
  }

  /** The buffer holds what has been flushed of an overlong field since it was last emptied
      and what is still to be flushed of it, its terminator and the bytes behind it. */
  ghost predicate Flushing(s: Cursor, field: string, c: char, behind: string) {
    && InText(s) && s.at <= |field| && s.flush && s.line == "" && s.at + s.left == |field| + 1 + |behind|
    && s.text[..|field|] == field && s.text[|field|] == c && s.text[|field| + 1..s.at + s.left] == behind
    && Plain(field, TERMINATORS) && c in TERMINATORS
  }

  lemma ChunkIsFlushing(s: Cursor, field: string, c: char, behind: string)
    requires InText(s) && s.at == 0 && s.flush && s.line == "" && s.left == |field| + 1 + |behind|
    requires s.text[..s.left] == field + [c] + behind && Plain(field, TERMINATORS) && c in TERMINATORS
    ensures Flushing(s, field, c, behind)
  {
    var chunk := s.text[..s.left];
    assert s.text[..|field|] == chunk[..|field|] && s.text[|field|] == chunk[|field|];
    assert s.text[|field| + 1..s.left] == chunk[|field| + 1..];
  }

  /** At the terminator of a flushed field the loop goes back to the head of the buffer:
      in place of the bytes behind the terminator it reads as many of the flushed field
      followed by them. */
  lemma FlushRereads(s: Cursor, field: string, c: char, behind: string)
    requires Flushing(s, field, c, behind)
    ensures var text := MovedDown(s.text, |field|, |field| + 1, |behind|);
      text[..|field|] == field && text[|field|..|field| + |behind|] == behind
      && Scanned(s) == Scanned(Cursor(text, 0, |behind|, false, ""))
  {
    forall i | 0 <= i < |field| ensures s.text[i] !in TERMINATORS {
      assert s.text[..|field|][i] == s.text[i];
    }
    PlainRun(s, |field| - s.at);
  }

  /** When the flushed field is no shorter than the bytes, all of them are lost. */
  lemma FlushTakesOld(s: Cursor, field: string, c: char, behind: string)
    requires Flushing(s, field, c, behind) && |behind| <= |field|
    ensures var t := Scanned(s);
      t.at == |behind| && t.left == 0 && !t.flush && t.line == "" && |t.text| == |s.text|
      && t.text[..t.at] == field[..|behind|]
  {
    FlushRereads(s, field, c, behind);
    var t := Cursor(MovedDown(s.text, |field|, |field| + 1, |behind|), 0, |behind|, false, "");
    forall i | 0 <= i < |field| ensures t.text[i] == field[i] {
      assert t.text[..|field|][i] == t.text[i];
    }
    PlainRun(t, |behind|);
  }

  lemma TerminatorEnds(s: Cursor, d: char)
    requires InText(s) && s.at > 0 && s.left == 1 && !s.flush && s.line == ""
    requires s.text[s.at] == d && d in TERMINATORS
    ensures Scanned(s).line == s.text[..s.at]
  {
    assert Scanned(Turn(s)) == Turn(s);
  }

  /** When a line ends in the bytes, what is read in place of them is them exactly when the
      terminator is the first byte since the buffer was emptied. */
  lemma RereadsRightIff(field: string, behind: string)
    requires Plain(field, TERMINATORS) && !Plain(behind, TERMINATORS)
    ensures (field + behind)[..|behind|] == behind <==> field == ""
  {
    if field == "" {
      assert field + behind == behind;
    } else {
      var i := FirstTerminator(behind);
      var read := (field + behind)[..|behind|];
      assert read[i] == if i < |field| then field[i] else behind[i - |field|];
    }
  }

  ghost function FirstTerminator(s: string): (i: nat)
    requires !Plain(s, TERMINATORS)
    ensures i < |s| && s[i] in TERMINATORS && Plain(s[..i], TERMINATORS)
    ensures forall j :: 0 <= j < i ==> s[j] !in TERMINATORS
  {
    if s[0] in TERMINATORS then 0
    else
      assert forall j :: 0 < j < |s| ==> s[j] == s[1..][j - 1];
      1 + FirstTerminator(s[1..])
  }

  // ---- The command word -----------------------------------------------------------------

  function ToUpper(c: char): char {
    if 'a' <= c <= 'z' then ((c as int) - 32) as char else c
  }

  /** The command word of a line of n characters: up to the first space or NUL. */
  ghost predicate WordEndsAt(line: string, w: nat, n: nat)
    requires n <= |line|
  {
    w <= n && (forall i :: 0 <= i < w ==> line[i] != ' ' && line[i] != '\0')
    && (w < n ==> line[w] == ' ' || line[w] == '\0')
  }

  /** The word is in upper case and ended by a NUL, and the rest is what it was. */
  ghost predicate UpperWord(before: string, after: string, w: nat) {
    w < |before| == |after| && after[w] == '\0'
    && (forall i :: 0 <= i < w ==> after[i] == ToUpper(before[i]))
    && forall i :: w < i < |before| ==> after[i] == before[i]
  }

  class ControlSocket {
    var script: seq<Event>

    constructor (script: seq<Event>)
      ensures this.script == script
    {
      this.script := script;
    }

    method Select() returns (r: Readiness)
      modifies this
      ensures Bytes(script) == Bytes(old(script)) && Work(script) <= Work(old(script))
      ensures r.Quiet? ==> Work(script) < Work(old(script))
      ensures r.Ready? ==> script == [] || !script[0].Idle?
      ensures Clean(old(script)) ==> Clean(script) && (r == Ready || r == Quiet(false))
      ensures old(script) != [] && old(script)[0].Idle? ==> r == Quiet(old(script)[0].expired)
      ensures old(script) != [] && old(script)[0].SelectFails? ==> r == Broken
      ensures old(script) == [] || old(script)[0].Chunk? || old(script)[0].RecvFails? ==>
        r == Ready && script == old(script)
    {
      r := Ready;
      if script != [] && script[0].Idle? {
        r := Quiet(script[0].expired);
        assert script[0] in script;
        script := script[1..];
      } else if script != [] && script[0].SelectFails? {
        r := Broken;
        assert script[0] in script;
      }
    }

    /** n > 0 bytes, 0 for a closed connection, -1 for an error. */
    method Recv(max: nat) returns (n: int, bytes: string)
      requires max > 0
      modifies this
      ensures n > 0 ==> n == |bytes| <= max && Work(script) + n <= Work(old(script)) && Work(script) < Work(old(script))
      ensures n <= 0 ==> bytes == "" && Work(script) <= Work(old(script))
      ensures Bytes(old(script)) == bytes + Bytes(script)
      ensures Clean(old(script)) ==> Clean(script) && (n <= 0 ==> Bytes(script) == "" || old(script)[0].Idle?)
      ensures old(script) != [] && old(script)[0].Chunk? ==>
        var b := old(script)[0].bytes; bytes == if |b| <= max then b else b[..max]
      ensures old(script) == [] || !old(script)[0].Chunk? ==> n <= 0
    {
      if script == [] {
        return 0, "";
      }
      assert script[0] in script;
      match script[0] {
        case Chunk(b) =>
          if b == "" {
            script := script[1..];
            return 0, "";
          }
          n := if |b| <= max then |b| else max;
          bytes := b[..n];
          if n == |b| {
            script := script[1..];
          } else {
            var rest := script[1..];
            script := [Chunk(b[n..])] + rest;
            assert script[1..] == rest;
            assert b[..n] + (b[n..] + Bytes(rest)) == b + Bytes(rest);
          }
        case _ =>
          return -1, "";
      }
    }

    /** select and recv together: no bytes and not open when the connection is to be
        closed, no bytes but open when nothing came within the timeout. */
    method Await(max: nat) returns (open: bool, bytes: string)
      requires max > 0
      modifies this
      ensures |bytes| <= max && (!open ==> bytes == "")
      ensures Bytes(old(script)) == bytes + Bytes(script)
      ensures Work(script) + |bytes| <= Work(old(script))
      ensures open ==> Work(script) < Work(old(script))
      ensures Clean(old(script)) ==> Clean(script) && (!open ==> Bytes(script) == "")
      ensures old(script) == [] || old(script)[0].SelectFails? || old(script)[0].RecvFails? ==> !open
      ensures old(script) != [] && old(script)[0].Idle? ==> open == !old(script)[0].expired && bytes == ""
      ensures old(script) != [] && old(script)[0].Chunk? ==>
        var b := old(script)[0].bytes;
        open == (b != "") && bytes == if |b| <= max then b else b[..max]
    {
      var readiness := Select();
      if !readiness.Ready? {
        return readiness.Quiet? && !readiness.expired, "";
      }
      var n;
      n, bytes := Recv(max);
      open := n > 0;
    }
  }

  /** The command-channel fields of CClientEntry.  A null psNextCmd is -1. */
  class LineReader {
    const buf: array<char>
    const socket: ControlSocket
    var cmdLen: int
    var recvdLen: int
    var unparsed: int
    var nextCmd: int

    ghost var received: string
    ghost var delivered: seq<string>

    /** Bytes received but not looked at yet, between calls. */
    ghost function Pending(): string
      requires InBounds()
      reads this, buf
    {
      if unparsed > 0 then buf[nextCmd..nextCmd + unparsed] else ""
    }

    ghost predicate InBounds()
      reads this, buf
    {
      buf.Length == MAX_COMMAND_LINE_LEN + 1 && unparsed >= 0
      && (unparsed > 0 ==> 0 < nextCmd && nextCmd + unparsed <= MAX_COMMAND_LINE_LEN)
    }

    /** Between calls the reader is in step with the stream: what is pending is the
        tail of what was received, and no field is under construction. */
    ghost predicate Valid()
      reads this, buf
    {
      InBounds() && InStep(received, Before(received, |Pending()|), Pending(), delivered, "", false)
    }

    constructor (socket: ControlSocket)
      ensures Valid() && fresh(buf) && this.socket == socket
      ensures received == "" && delivered == []
    {
      buf := new char[MAX_COMMAND_LINE_LEN + 1];
      this.socket := socket;
      cmdLen, recvdLen, unparsed, nextCmd := 0, 0, 0, -1;
      received, delivered := "", [];
    }

    /** In the middle of a call: the field under construction fills the head of the
        buffer, the unparsed bytes follow it. */
    ghost predicate Parsing(seen: string, flush: bool)
      reads this, buf
    {
      && buf.Length == MAX_COMMAND_LINE_LEN + 1
      && 0 <= recvdLen && 0 <= unparsed && recvdLen + unparsed <= MAX_COMMAND_LINE_LEN
      && InStep(received, seen, buf[recvdLen..recvdLen + unparsed], delivered, buf[..recvdLen], flush)
    }

    ghost function View(flush: bool): Cursor
      requires 0 <= recvdLen && 0 <= unparsed && 0 <= cmdLen <= buf.Length
      reads this, buf
    {
      Cursor(buf[..], recvdLen, unparsed, flush, buf[..cmdLen])
    }

    /** memmove(sCmdBuffer + dst, sCmdBuffer + src, n). */
    method Move(dst: nat, src: nat, n: nat)
      requires dst <= src && src + n <= buf.Length
      modifies buf
      ensures buf[dst..dst + n] == old(buf[src..src + n])
      ensures buf[..dst] == old(buf[..dst]) && buf[dst + n..] == old(buf[dst + n..])
    {
      var moved := buf[src..src + n];
      forall k | 0 <= k < n {
        buf[dst + k] := moved[k];
      }
    }

    method CloseGap(at: nat, n: nat)
      requires at + 1 + n <= buf.Length
      modifies buf
      ensures buf[..] == MovedDown(old(buf[..]), at, at + 1, n)
      ensures buf[at..at + n] == old(buf[at + 1..at + 1 + n]) && buf[..at] == old(buf[..at])
    {
      Move(at, at + 1, n);
      assert buf[..] == buf[..at] + buf[at..at + n] + buf[at + n..];
    }

    /** The terminator at the end of a field: the field becomes the line. */
    method EndLine(ghost seen: string, ghost tail: string, ghost head: string)
      requires buf.Length == MAX_COMMAND_LINE_LEN + 1 && cmdLen == 0
      requires 0 < recvdLen && 0 <= unparsed && recvdLen + 1 + unparsed <= MAX_COMMAND_LINE_LEN
      requires buf[..recvdLen] == head && buf[recvdLen + 1..recvdLen + 1 + unparsed] == tail
      requires InStep(received, seen, tail, delivered + [head], "", false)
      modifies this`cmdLen, this`nextCmd, this`delivered, buf
      ensures LineDone(old(delivered)) && cmdLen == recvdLen
      ensures buf[..] == old(buf[..])[recvdLen := '\0']
    {
      buf[recvdLen] := '\0';
      cmdLen := recvdLen;
      nextCmd := recvdLen + 1;
      delivered := delivered + [head];
      assert buf[..cmdLen] == head && Pending() == tail;
      BeforeTail(received, seen, tail, delivered);
    }

    /** A terminator that ends no line is dropped from the buffer. */
    method DropTerminator(ghost seen: string, ghost tail: string, flushing: bool)
      requires buf.Length == MAX_COMMAND_LINE_LEN + 1
      requires 0 <= recvdLen && 0 <= unparsed && recvdLen + 1 + unparsed <= MAX_COMMAND_LINE_LEN
      requires buf[recvdLen + 1..recvdLen + 1 + unparsed] == tail
      requires InStep(received, seen, tail, delivered, "", false)
      requires if flushing then !AllFit(received) else recvdLen == 0
      modifies this`recvdLen, buf
      ensures Parsing(seen, false) && recvdLen == if flushing then 0 else old(recvdLen)
      ensures buf[..] == MovedDown(old(buf[..]), old(recvdLen), old(recvdLen) + 1, unparsed)
    {
      CloseGap(recvdLen, unparsed);
      if flushing {
        recvdLen := 0;
      }
      assert buf[..0] == "";
    }

    /** Any other byte joins the field under construction. */
    method KeepByte(ghost seen: string, ghost tail: string, ghost head: string, flush: bool)
      requires buf.Length == MAX_COMMAND_LINE_LEN + 1
      requires 0 <= recvdLen && 0 <= unparsed && recvdLen + 1 + unparsed <= MAX_COMMAND_LINE_LEN
      requires buf[..recvdLen] + [buf[recvdLen]] == head
      requires buf[recvdLen + 1..recvdLen + 1 + unparsed] == tail
      requires InStep(received, seen, tail, delivered, head, flush)
      modifies this`recvdLen
      ensures Parsing(seen, flush) && recvdLen == old(recvdLen) + 1
    {
      recvdLen := recvdLen + 1;
      assert buf[..recvdLen] == head;
    }

    /** A terminator, already counted off: it ends a line or is dropped. */
    method TakeTerminator(ghost start: string, ghost tail: string, ghost head: string, flushing: bool)
      returns (flush: bool)
      requires buf.Length == MAX_COMMAND_LINE_LEN + 1 && cmdLen == 0
      requires 0 <= recvdLen && 0 <= unparsed && recvdLen + 1 + unparsed <= MAX_COMMAND_LINE_LEN
      requires buf[recvdLen] in TERMINATORS && buf[..recvdLen] == head
      requires buf[recvdLen + 1..recvdLen + 1 + unparsed] == tail
      requires InStep(received, start, [buf[recvdLen]] + tail, delivered, head, flushing)
      modifies this`recvdLen, this`cmdLen, this`nextCmd, this`delivered, buf
      ensures 0 <= recvdLen
      ensures cmdLen == 0 ==> Parsing(start + [old(buf[recvdLen])], flush) && delivered == old(delivered)
      ensures cmdLen != 0 ==> LineDone(old(delivered))
      ensures View(flush) == Turn(old(View(flushing).(left := unparsed + 1)))
    {
      ghost var c, before := buf[recvdLen], View(flushing).(left := unparsed + 1);
      assert before.text[before.at] == c && before.text[..before.at] == head;
      flush := flushing;
      StepTerminator(received, start, c, tail, delivered, head, flushing);
      if recvdLen > 0 && !flush {
        EndLine(start + [c], tail, head);
      } else {
        DropTerminator(start + [c], tail, flush);
        flush := false;
      }
    }

    /** One turn of the inner loop, which ends the loop when it ends a line. */
    method ScanOne(ghost start: string, flushing: bool) returns (ghost seen: string, flush: bool)
      requires Parsing(start, flushing) && cmdLen == 0 && unparsed > 0
      modifies this`recvdLen, this`cmdLen, this`unparsed, this`nextCmd, this`delivered, buf
      ensures unparsed == old(unparsed) - 1 && 0 <= recvdLen
      ensures cmdLen == 0 ==> Parsing(seen, flush) && delivered == old(delivered)
      ensures cmdLen != 0 ==> LineDone(old(delivered))
      ensures View(flush) == Turn(old(View(flushing)))
    {
      var c := buf[recvdLen];
      ghost var head, tail := buf[..recvdLen], buf[recvdLen + 1..recvdLen + unparsed];
      assert buf[recvdLen..recvdLen + unparsed] == [c] + tail;
      seen, flush := start + [c], flushing;
      unparsed := unparsed - 1;
      if c == '\r' || c == '\n' || c == '\0' {
        flush := TakeTerminator(start, tail, head, flushing);
      } else {
        StepPlain(received, start, c, tail, delivered, head, flushing);
        KeepByte(seen, tail, head + [c], flush);
      }
    }

    /** The inner loop. */
    method Scan(ghost start: string, flushing: bool) returns (ghost seen: string, flush: bool)
      requires Parsing(start, flushing) && cmdLen == 0
      modifies this`recvdLen, this`cmdLen, this`unparsed, this`nextCmd, this`delivered, buf
      ensures unparsed <= old(unparsed)
      ensures cmdLen == 0 ==> Parsing(seen, flush) && unparsed == 0 && delivered == old(delivered)
      ensures cmdLen != 0 ==> LineDone(old(delivered)) && unparsed < old(unparsed)
      ensures 0 <= recvdLen && View(flush) == Scanned(old(View(flushing)))
    {
      seen, flush := start, flushing;
      while unparsed > 0 && cmdLen == 0
        invariant unparsed <= old(unparsed) && 0 <= recvdLen
        invariant cmdLen == 0 ==> Parsing(seen, flush) && delivered == old(delivered)
        invariant cmdLen != 0 ==> LineDone(old(delivered)) && unparsed < old(unparsed)
        invariant InText(View(flush)) && Scanned(View(flush)) == Scanned(old(View(flushing)))
        decreases unparsed
      {
        seen, flush := ScanOne(seen, flush);
      }
    }

    /** A line has been cut out and handed over. */
    ghost predicate LineDone(before: seq<string>)
      reads this, buf
    {
      && Valid() && 0 < cmdLen < MAX_COMMAND_LINE_LEN && cmdLen < nextCmd
      && delivered == before + [buf[..cmdLen]]
    }

    /** What the previous call left over moves to the head of the buffer. */
    method TakeUp() returns (ghost seen: string)
      requires Valid()
      modifies this`recvdLen, this`cmdLen, this`nextCmd, buf
      ensures Parsing(seen, false) && cmdLen == 0
    {
      seen := Before(received, |Pending()|);
      ghost var pending := Pending();
      recvdLen := 0;
      cmdLen := 0;
      if nextCmd >= 0 && unparsed > 0 {
        Move(0, nextCmd, unparsed);
        nextCmd := -1;
      }
      ghost var head, tail := buf[..recvdLen], buf[recvdLen..recvdLen + unparsed];
      assert tail == pending;
      assert head == "";
    }

    /** With everything parsed: a field that fills the buffer is flushed. */
    method MakeRoom(ghost seen: string, flushing: bool) returns (room: nat, flush: bool)
      requires Parsing(seen, flushing) && unparsed == 0
      modifies this`recvdLen
      ensures Parsing(seen, flush) && 0 < room && recvdLen + room <= MAX_COMMAND_LINE_LEN
      ensures delivered == Lines(received) <==> AllFit(received)
      ensures if old(recvdLen) < MAX_COMMAND_LINE_LEN then recvdLen == old(recvdLen) && flush == flushing
              else recvdLen == 0 && flush
    {
      assert buf[recvdLen..recvdLen + unparsed] == "";
      NothingLeft(received, seen, delivered, buf[..recvdLen], flushing);
      room, flush := MAX_COMMAND_LINE_LEN - recvdLen, flushing;
      if room <= 0 {
        recvdLen := 0;
        flush := true;
        room := MAX_COMMAND_LINE_LEN;
        assert buf[recvdLen..recvdLen + unparsed] == "";
      }
    }

    /** The bytes that recv put behind the field under construction. */
    method Accept(bytes: string, ghost seen: string, flush: bool)
      requires Parsing(seen, flush) && unparsed == 0 && recvdLen + |bytes| <= MAX_COMMAND_LINE_LEN
      modifies this`unparsed, this`received, buf
      ensures Parsing(seen, flush) && unparsed == |bytes| && received == old(received) + bytes
      ensures buf[..recvdLen] == old(buf[..recvdLen]) && buf[recvdLen..recvdLen + |bytes|] == bytes
    {
      ghost var head := buf[..recvdLen];
      assert buf[recvdLen..recvdLen + unparsed] == "";
      StepReceive(received, seen, bytes, delivered, head, flush);
      forall k | 0 <= k < |bytes| {
        buf[recvdLen + k] := bytes[k];
      }
      received := received + bytes;
      unparsed := unparsed + |bytes|;
      assert buf[..recvdLen] == head && buf[recvdLen..recvdLen + unparsed] == bytes;
    }

    /** select and recv behind the field under construction. */
    method Fill(room: nat, ghost seen: string, flush: bool) returns (open: bool)
      requires Parsing(seen, flush) && unparsed == 0 && 0 < room && recvdLen + room <= MAX_COMMAND_LINE_LEN
      modifies this`unparsed, this`received, buf, socket
      ensures open ==> Parsing(seen, flush) && Work(socket.script) < old(Work(socket.script))
      ensures !open ==> received == old(received)
      ensures received + Bytes(socket.script) == old(received + Bytes(socket.script))
      ensures Work(socket.script) + unparsed <= old(Work(socket.script))
      ensures Clean(old(socket.script)) ==> Clean(socket.script) && (!open ==> Bytes(socket.script) == "")
    {
      var bytes;
      open, bytes := socket.Await(room);
      Regroup(received, bytes, Bytes(socket.script));
      if open {
        Accept(bytes, seen, flush);
      }
    }

    /** One call.  It returns a line, or false when the connection is to be closed;
        then what was delivered is every line of what came in, exactly when every
        terminated field fits. */
    method ReceiveLine() returns (ok: bool)
      requires Valid()
      modifies this`recvdLen, this`cmdLen, this`unparsed, this`nextCmd, this`received, this`delivered, buf, socket
      ensures received + Bytes(socket.script) == old(received) + Bytes(old(socket.script))
      ensures Clean(old(socket.script)) ==> Clean(socket.script)
      ensures ok ==> LineDone(old(delivered)) && Work(socket.script) + unparsed < old(Work(socket.script) + unparsed)
      ensures !ok ==> delivered == old(delivered) && (delivered == Lines(received) <==> AllFit(received))
      ensures AreLines(delivered)
      ensures !ok && Clean(old(socket.script)) ==> Bytes(socket.script) == ""
    {
      ghost var seen := TakeUp();
      ghost var stream := received + Bytes(socket.script);
      var flush := false;
      ok := false;
      var open := true;
      while open
        invariant open ==> Parsing(seen, flush) && cmdLen == 0
        invariant !open ==> (delivered == Lines(received) <==> AllFit(received))
        invariant delivered == old(delivered)
        invariant received + Bytes(socket.script) == stream
        invariant Work(socket.script) + unparsed <= old(Work(socket.script) + unparsed)
        invariant Clean(old(socket.script)) ==> Clean(socket.script) && (!open ==> Bytes(socket.script) == "")
        decreases open, Work(socket.script)
      {
        seen, flush := Scan(seen, flush);
        if cmdLen != 0 {
          return true;
        }
        var room;
        room, flush := MakeRoom(seen, flush);
        open := Fill(room, seen, flush);
      }
    }

    /** The buffer is full of an overlong line, and one recv brings the rest of it, its
        terminator and more bytes, no more than that rest: the bytes are lost, and the reader
        holds the beginning of the rest as a field in place of them. */
    method FlushLosesBytes(field: string, c: char, behind: string, ghost start: string)
      returns (ghost seen: string)
      requires Parsing(start, false) && unparsed == 0 && recvdLen == MAX_COMMAND_LINE_LEN && cmdLen == 0
      requires Plain(field, TERMINATORS) && c in TERMINATORS
      requires |behind| <= |field| && |field| + 1 + |behind| <= MAX_COMMAND_LINE_LEN
      modifies this`recvdLen, this`cmdLen, this`unparsed, this`nextCmd, this`received, this`delivered, buf
      ensures received == old(received) + (field + [c] + behind) && delivered == old(delivered)
      ensures Parsing(seen, false) && unparsed == 0 && cmdLen == 0 && buf[..recvdLen] == field[..|behind|]
    {
      var chunk := field + [c] + behind;
      var room, flush := MakeRoom(start, false);
      Accept(chunk, start, flush);
      ghost var s := View(flush);
      assert s.text[..s.left] == chunk;
      ChunkIsFlushing(s, field, c, behind);
      FlushTakesOld(s, field, c, behind);
      seen, flush := Scan(start, flush);
      assert buf[..recvdLen] == View(flush).text[..recvdLen];
    }

    /** A terminator comes: the field held is handed over as a line. */
    method TerminatorComes(d: char, ghost start: string)
      requires Parsing(start, false) && unparsed == 0 && 0 < recvdLen < MAX_COMMAND_LINE_LEN && cmdLen == 0
      requires d in TERMINATORS
      modifies this`recvdLen, this`cmdLen, this`unparsed, this`nextCmd, this`received, this`delivered, buf
      ensures received == old(received) + [d]
      ensures delivered == old(delivered) + [old(buf[..recvdLen])]
    {
      var room, flush := MakeRoom(start, false);
      Accept([d], start, flush);
      assert buf[recvdLen..recvdLen + 1][0] == d;
      ghost var s := View(flush);
      assert s.text[..s.at] == buf[..recvdLen];
      TerminatorEnds(s, d);
      ghost var _, _ := Scan(start, flush);
    }

    /** And when the next recv brings a terminator, a piece of the overlong line is handed
        over as a line, in place of every line behind it. */
    method FlushForgesLine(field: string, c: char, behind: string, d: char, ghost start: string)
      requires Parsing(start, false) && unparsed == 0 && recvdLen == MAX_COMMAND_LINE_LEN && cmdLen == 0
      requires Plain(field, TERMINATORS) && c in TERMINATORS && d in TERMINATORS
      requires 0 < |behind| <= |field| && |field| + 1 + |behind| <= MAX_COMMAND_LINE_LEN
      modifies this`recvdLen, this`cmdLen, this`unparsed, this`nextCmd, this`received, this`delivered, buf
      ensures Lines(received) == Lines(old(received) + field + [c]) + Lines(behind + [d])
      ensures delivered == old(delivered) + [field[..|behind|]]
    {
      ghost var seen := FlushLosesBytes(field, c, behind, start);
      assert |buf[..recvdLen]| == |behind|;
      TerminatorComes(d, seen);
      LinesConcat(old(received) + field, c, behind + [d]);
      assert received == (old(received) + field + [c]) + (behind + [d]);
    }

    /** ParseLine writes to the line alone: it ends the command word at the first
        space and puts it in upper case. */
    method ParseLine()
      requires Valid() && 0 < cmdLen < MAX_COMMAND_LINE_LEN && cmdLen < nextCmd
      modifies buf
      ensures Valid()
      ensures exists w :: 0 <= w <= cmdLen && WordEndsAt(old(buf[..]), w, cmdLen) && UpperWord(old(buf[..]), buf[..], w)
    {
      ghost var pending := Pending();
      var k := 0;
      while k < cmdLen && buf[k] != ' ' && buf[k] != '\0'
        invariant 0 <= k <= cmdLen && forall i :: k <= i < buf.Length ==> buf[i] == old(buf[i])
        invariant forall i :: 0 <= i < k ==>
          old(buf[i]) != ' ' && old(buf[i]) != '\0' && buf[i] == ToUpper(old(buf[i]))
      {
        if 'a' <= buf[k] <= 'z' {
          buf[k] := ((buf[k] as int) - 32) as char;
        }
        k := k + 1;
      }
      buf[k] := '\0';
      assert Pending() == pending;
      assert WordEndsAt(old(buf[..]), k, cmdLen) && UpperWord(old(buf[..]), buf[..], k);
    }

    /** The main loop of Shell, command after command.  However the socket cuts the
        stream, the lines are those of the bytes that came in. */
    method Serve() returns (lines: seq<string>)
      requires Valid() && received == "" && delivered == []
      modifies this`recvdLen, this`cmdLen, this`unparsed, this`nextCmd, this`received, this`delivered, buf, socket
      ensures lines == Lines(received) <==> AllFit(received)
      ensures (forall f :: f in Closed(received) ==> |f| < 4128) <==> lines == Lines(received)
      ensures forall l :: l in lines ==> 0 < |l| < 4128 && '\r' !in l && '\n' !in l && '\0' !in l
      ensures Clean(old(socket.script)) ==> received == Bytes(old(socket.script))
    {
      lines := [];
      ghost var stream := received + Bytes(socket.script);
      NothingToJoin(Bytes(socket.script));
      var ok := ReceiveLine();
      while ok
        invariant ok ==> LineDone(lines)
        invariant !ok ==> delivered == lines && AreLines(lines) && (lines == Lines(received) <==> AllFit(received))
        invariant received + Bytes(socket.script) == stream
        invariant Clean(old(socket.script)) ==> Clean(socket.script) && (!ok ==> Bytes(socket.script) == "")
        decreases if ok then 1 + Work(socket.script) + unparsed else 0
      {
        lines := lines + [buf[..cmdLen]];
        ParseLine();
        ok := ReceiveLine();
      }
      NothingToJoin(received);
      LinesSpelledOut(received, lines);
    }
  }
}
