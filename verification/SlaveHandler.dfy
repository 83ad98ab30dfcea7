// slave_servicesHandler: the slave's side of a transfer.  One table of data
// sockets, files named by fid, and copy loops over a fixed buffer.

module SlaveHandler {
  import opened DataPorts
  import opened Sequences

  newtype byte = x: int | 0 <= x < 256

  const INVALID_SOCKET := -1

  // ---- What the operating system may answer ------------------------------------

  /** The peer's side of a data connection, event by event: bytes, an end of file (no
      bytes, or no event left) or an error of recv or select. */
  datatype Incoming = Data(bytes: seq<byte>) | RecvError | SelectError

  /** The next thing the socket has for the server is more bytes. */
  predicate HasBytes(net: seq<Incoming>) {
    net != [] && net[0].Data? && net[0].bytes != []
  }

  /** What the peer sends before its end of file or the first error. */
  function Sent(net: seq<Incoming>): seq<byte> {
    if HasBytes(net) then net[0].bytes + Sent(net[1..]) else []
  }

  function Weight(net: seq<Incoming>): nat {
    if HasBytes(net) then 1 + |net[0].bytes| + Weight(net[1..]) else 0
  }

  /** The stream ends in an end of file. */
  predicate ClosesCleanly(net: seq<Incoming>) {
    if HasBytes(net) then ClosesCleanly(net[1..]) else net == [] || net[0].Data?
  }

  /** What write answers: a count, 0 included, or anything negative for an error. */
  predicate NoWriteError(writes: seq<int>) {
    forall k :: k in writes ==> k >= 0
  }

  /** What open and lseek answer. */
  datatype FileAnswers = FileAnswers(openOk: bool, seekOk: bool)

  /** The file position is where the transfer is to begin.  A client can ask for any: a
      negative one is never taken. */
  predicate Positioned(restartAt: int, os: FileAnswers) {
    restartAt == 0 || (restartAt > 0 && os.seekOk)
  }

  /** How many of n bytes SafeWrite writes, one answer of write a turn, and the answers
      left over: a short count is taken, and any other is the whole rest. */
  function Written(n: nat, writes: seq<int>): (r: (nat, seq<int>))
    ensures r.0 <= n && (NoWriteError(writes) ==> r.0 == n && NoWriteError(r.1))
    decreases |writes|
  {
    if n == 0 then (0, writes)
    else if writes == [] then (n, [])
    else if writes[0] < 0 then
      assert writes[0] in writes;
      (0, writes[1..])
    else
      var k := if writes[0] < n then writes[0] else n;
      var rest := Written(n - k, writes[1..]);
      assert NoWriteError(writes) ==> forall x :: x in writes[1..] ==> x in writes;
      (k + rest.0, rest.1)
  }

  function Sum(a: seq<int>): int {
    if a == [] then 0 else a[0] + Sum(a[1..])
  }

  /** Answer j of write is an error, and the counts before it do not make up n bytes. */
  predicate FailsAt(n: nat, writes: seq<int>, j: nat) {
    j < |writes| && writes[j] < 0 && (forall i :: 0 <= i < j ==> writes[i] >= 0) && Sum(writes[..j]) < n
  }

  /** Then exactly the bytes counted before the error are written. */
  lemma {:induction false} WrittenWhenFails(n: nat, writes: seq<int>, j: nat)
    requires FailsAt(n, writes, j)
    ensures Sum(writes[..j]) >= 0 && Written(n, writes) == (Sum(writes[..j]), writes[j + 1..])
    decreases |writes|
  {
    if j > 0 {
      assert writes[..j][1..] == writes[1..][..j - 1];
      SumIsNat(writes[1..][..j - 1]);
      WrittenWhenFails(n - writes[0], writes[1..], j - 1);
    } else {
      assert writes[..0] == [];
    }
  }

  lemma {:induction false} SumIsNat(a: seq<int>)
    requires forall k :: k in a ==> k >= 0
    ensures Sum(a) >= 0
  {
    if a != [] {
      assert a[0] in a && forall k :: k in a[1..] ==> k in a;
      SumIsNat(a[1..]);
    }
  }

  /** Not all is written only when write fails so. */
  lemma {:induction false} WrittenFailsOnlyAt(n: nat, writes: seq<int>) returns (j: nat)
    requires Written(n, writes).0 < n
    ensures FailsAt(n, writes, j)
    decreases |writes|
  {
    if writes[0] < 0 {
      j := 0;
      assert writes[..0] == [];
    } else {
      var i := WrittenFailsOnlyAt(n - writes[0], writes[1..]);
      j := i + 1;
      assert writes[..j][1..] == writes[1..][..i];
      assert forall k :: 0 < k < j ==> writes[k] == writes[1..][k - 1];
    }
  }

  lemma WriteFailure(n: nat, writes: seq<int>)
    ensures Written(n, writes).0 == n <==> !exists j: nat :: FailsAt(n, writes, j)
    ensures forall j: nat :: FailsAt(n, writes, j) ==> Written(n, writes) == (Sum(writes[..j]), writes[j + 1..])
  {
    forall j: nat | FailsAt(n, writes, j)
      ensures Written(n, writes) == (Sum(writes[..j]), writes[j + 1..])
    {
      WrittenWhenFails(n, writes, j);
    }
    if Written(n, writes).0 < n { var _ := WrittenFailsOnlyAt(n, writes); }
  }

  /** When all is written, the answers used are the counts that make it up, and no more. */
  lemma {:induction false} WrittenTakes(n: nat, writes: seq<int>) returns (c: nat)
    requires Written(n, writes).0 == n
    ensures c <= |writes| && Written(n, writes).1 == writes[c..]
    ensures c < |writes| ==> Sum(writes[..c]) >= n
    ensures c > 0 ==> Sum(writes[..c - 1]) < n
    decreases |writes|
  {
    if n == 0 {
      c := 0;
    } else if writes == [] {
      c := 0;
    } else if writes[0] < n {
      var i := WrittenTakes(n - writes[0], writes[1..]);
      c := i + 1;
      assert writes[..c][1..] == writes[1..][..i];
      if i > 0 { assert writes[..c - 1][1..] == writes[1..][..i - 1]; }
      else { assert writes[..0] == []; }
    } else {
      c := 1;
      assert Written(0, writes[1..]) == (0, writes[1..]);
      assert writes[..1] == [writes[0]] && writes[..0] == [];
      assert [writes[0]][1..] == [];
    }
  }

  /** What a copy loop leaves in the file, and whether it takes the transfer as complete. */
  datatype Copied = Copied(stored: seq<byte>, complete: bool)

  /** The copy loop of Store over a whole stream: full buffers are written and looked at,
      what is left at an end of file is written and not looked at, what is left at an
      error of recv is dropped. */
  function CopyOf(b: nat, stream: seq<byte>, clean: bool, writes: seq<int>): (c: Copied)
    requires b > 0
    ensures c.stored <= stream
    decreases |stream|
  {
    if |stream| < b then
      Copied(if clean then stream[..Written(|stream|, writes).0] else [], clean)
    else
      var (wrote, rest) := Written(b, writes);
      if wrote < b then Copied(stream[..wrote], false)
      else
        var c := CopyOf(b, stream[b..], clean, rest);
        assert stream == stream[..b] + stream[b..];
        Copied(stream[..b] + c.stored, c.complete)
  }

  function Onto(head: seq<byte>, c: Copied): Copied {
    Copied(head + c.stored, c.complete)
  }

  /** When the write of the first full buffer fails, the file has exactly the bytes counted
      before the error, and the transfer is not complete. */
  lemma FirstBufferFails(b: nat, stream: seq<byte>, clean: bool, writes: seq<int>, j: nat)
    requires 0 < b <= |stream| && FailsAt(b, writes, j)
    ensures 0 <= Sum(writes[..j]) < b
    ensures CopyOf(b, stream, clean, writes) == Copied(stream[..Sum(writes[..j])], false)
  {
    WrittenWhenFails(b, writes, j);
  }

  /** An error of recv leaves the full buffers in the file and drops the rest. */
  lemma {:induction false} UncleanKeepsBlocks(b: nat, stream: seq<byte>, writes: seq<int>)
    requires b > 0 && NoWriteError(writes)
    ensures CopyOf(b, stream, false, writes) == Copied(stream[..|stream| - |stream| % b], false)
    decreases |stream|
  {
    if |stream| < b {
      DivModUnique(|stream|, b, 0, |stream|);
      assert stream[..0] == [];
    } else {
      OneBlock(|stream|, b);
      UncleanKeepsBlocks(b, stream[b..], Written(b, writes).1);
      var kept := |stream| - |stream| % b;
      assert stream[..b] + stream[b..][..kept - b] == stream[..kept];
    }
  }

  function Chunks(xs: seq<seq<byte>>): seq<Incoming> {
    if xs == [] then [] else [Data(xs[0])] + Chunks(xs[1..])
  }

  lemma SentStep(x: seq<byte>, net: seq<Incoming>)
    requires x != []
    ensures Sent([Data(x)] + net) == x + Sent(net) && (ClosesCleanly([Data(x)] + net) <==> ClosesCleanly(net))
  {
    assert ([Data(x)] + net)[1..] == net;
  }

  /** However the peer's bytes are cut into chunks, they are the stream, up to the first
      event that brings none: an end of file, or an error. */
  lemma {:induction false} SentIsConcat(xs: seq<seq<byte>>, end: seq<Incoming>)
    requires (forall x :: x in xs ==> x != []) && !HasBytes(end)
    ensures Sent(Chunks(xs) + end) == Concat(xs)
    ensures ClosesCleanly(Chunks(xs) + end) <==> end == [] || end[0] == Data([])
    decreases |xs|
  {
    if xs == [] {
      assert Chunks(xs) + end == end;
    } else {
      assert xs[0] in xs && forall x :: x in xs[1..] ==> x in xs;
      Regroup([Data(xs[0])], Chunks(xs[1..]), end);
      SentStep(xs[0], Chunks(xs[1..]) + end);
      SentIsConcat(xs[1..], end);
    }
  }

  /** In the middle of the loop: `flushed` is in the file and `block` in the buffer, which
      are the bytes got; `tail` is still to come, and so is the copy of the two. */
  ghost predicate Midway(b: nat, stream: seq<byte>, whole: Copied, clean: bool, flushed: seq<byte>,
                         block: seq<byte>, tail: seq<byte>, got: seq<byte>, answers: seq<int>) {
    && got == flushed + block && got + tail == stream
    && (b > 0 ==> whole == Onto(flushed, CopyOf(b, block + tail, clean, answers)))
  }

  /** After the loop: the file has what the copy of the whole stream leaves in it. */
  ghost predicate Over(b: nat, stream: seq<byte>, whole: Copied, flushed: seq<byte>, got: seq<byte>, len: int) {
    && flushed <= got <= stream
    && (b > 0 ==> whole == Copied(flushed, len >= 0) && (len >= 0 ==> got == stream))
  }

  lemma BytesArrive(b: nat, stream: seq<byte>, whole: Copied, clean: bool, flushed: seq<byte>,
                    block: seq<byte>, bytes: seq<byte>, tail: seq<byte>, got: seq<byte>, answers: seq<int>)
    requires Midway(b, stream, whole, clean, flushed, block, bytes + tail, got, answers)
    ensures Midway(b, stream, whole, clean, flushed, block + bytes, tail, got + bytes, answers)
  {
    Regroup(flushed, block, bytes);
    Regroup(got, bytes, tail);
    Regroup(block, bytes, tail);
  }

  /** A full buffer: written, and the loop goes on when all of it was. */
  lemma BufferFull(b: nat, stream: seq<byte>, whole: Copied, clean: bool, flushed: seq<byte>,
                   block: seq<byte>, tail: seq<byte>, got: seq<byte>, answers: seq<int>)
    requires |block| == b > 0 && Midway(b, stream, whole, clean, flushed, block, tail, got, answers)
    ensures var (wrote, rest) := Written(b, answers);
      if wrote < b then Over(b, stream, whole, flushed + block[..wrote], got, -1)
      else Midway(b, stream, whole, clean, flushed + block[..wrote], [], tail, got, rest)
  {
    var (wrote, rest) := Written(b, answers);
    assert (block + tail)[..wrote] == block[..wrote];
    assert (block + tail)[b..] == tail && (block + tail)[..b] == block == block[..b];
    Regroup(flushed, block, CopyOf(b, tail, clean, rest).stored);
    NothingToJoin(tail);
    NothingToJoin(flushed + block);
  }

  /** The end of the stream: what is in the buffer is written, or dropped. */
  lemma StreamEnds(b: nat, stream: seq<byte>, whole: Copied, clean: bool, flushed: seq<byte>,
                   block: seq<byte>, got: seq<byte>, answers: seq<int>)
    requires |block| < b && Midway(b, stream, whole, clean, flushed, block, [], got, answers)
    ensures var stored := if clean then flushed + block[..Written(|block|, answers).0] else flushed;
      Over(b, stream, whole, stored, got, if clean then 0 else -1) && got == stream
  {
    NothingToJoin(got);
    NothingToJoin(block);
    NothingToJoin(flushed);
  }

  // ---- What a 226 says about the file ------------------------------------------------

  lemma DivModUnique(n: nat, b: nat, q: nat, r: nat)
    requires r < b && n == q * b + r
    ensures n / b == q && n % b == r
  {
    var d := n / b - q;
    assert d * b == r - n % b;
  }

  /** One buffer less: one block less, the same rest. */
  lemma OneBlock(n: nat, b: nat)
    requires 0 < b <= n
    ensures n / b == (n - b) / b + 1 && n % b == (n - b) % b
  {
    var q, r := (n - b) / b, (n - b) % b;
    assert (q + 1) * b == q * b + b;
    DivModUnique(n, b, q + 1, r);
  }

  /** Without an error of write the file gets the whole of a stream that closes cleanly. */
  lemma {:induction false} CopiesAll(b: nat, stream: seq<byte>, clean: bool, writes: seq<int>)
    requires b > 0 && NoWriteError(writes)
    ensures CopyOf(b, stream, clean, writes).complete == clean
    ensures clean ==> CopyOf(b, stream, clean, writes).stored == stream
    decreases |stream|
  {
    if |stream| >= b {
      CopiesAll(b, stream[b..], clean, Written(b, writes).1);
      assert stream == stream[..b] + stream[b..];
    }
  }

  /** Whatever write answers, a transfer taken as complete lacks nothing but bytes of the
      last, unfilled buffer. */
  lemma {:induction false} CompleteLosesTail(b: nat, stream: seq<byte>, clean: bool, writes: seq<int>)
    requires b > 0 && CopyOf(b, stream, clean, writes).complete
    ensures clean && |stream| - |CopyOf(b, stream, clean, writes).stored| <= |stream| % b
    decreases |stream|
  {
    if |stream| < b {
      DivModUnique(|stream|, b, 0, |stream|);
    } else {
      CompleteLosesTail(b, stream[b..], clean, Written(b, writes).1);
      OneBlock(|stream|, b);
    }
  }

  /** The answers of a disk that fails after the last full buffer. */
  function FailsLast(b: nat, blocks: nat): seq<int> {
    seq(blocks, _ => b) + [-1]
  }

  lemma FullBlock(b: nat, stream: seq<byte>, writes: seq<int>)
    requires 0 < b <= |stream| && writes != [] && writes[0] == b
    ensures var c := CopyOf(b, stream[b..], true, writes[1..]);
      CopyOf(b, stream, true, writes) == Copied(stream[..b] + c.stored, c.complete)
  {
    assert Written(0, writes[1..]) == (0, writes[1..]);
    assert Written(b, writes) == (b, writes[1..]);
  }

  lemma {:induction false} FailsAfterBlocks(b: nat, stream: seq<byte>, blocks: nat, left: nat)
    requires left < b && |stream| == blocks * b + left
    ensures CopyOf(b, stream, true, FailsLast(b, blocks)) == Copied(stream[..|stream| - left], true)
    decreases blocks
  {
    var writes := FailsLast(b, blocks);
    if blocks == 0 {
      assert writes == [-1] && stream[..0] == [];
    } else {
      assert blocks * b == (blocks - 1) * b + b;
      assert writes[1..] == FailsLast(b, blocks - 1);
      FullBlock(b, stream, writes);
      FailsAfterBlocks(b, stream[b..], blocks - 1, left);
      assert stream[..b] + stream[b..][..|stream| - left - b] == stream[..|stream| - left];
    }
  }

  /** With those answers the transfer is taken as complete, and exactly the bytes of the
      last buffer are missing. */
  lemma LosesWholeTail(b: nat, stream: seq<byte>)
    requires b > 0
    ensures CopyOf(b, stream, true, FailsLast(b, |stream| / b)) == Copied(stream[..|stream| - |stream| % b], true)
  {
    FailsAfterBlocks(b, stream, |stream| / b, |stream| % b);
  }

  lemma TailLost(b: nat, stream: seq<byte>) returns (writes: seq<int>)
    requires b > 0 && |stream| % b != 0
    ensures CopyOf(b, stream, true, writes).complete && CopyOf(b, stream, true, writes).stored != stream
  {
    writes := FailsLast(b, |stream| / b);
    LosesWholeTail(b, stream);
  }

  /** A copy taken as complete is the whole stream, whatever write answers, exactly when
      the buffer size divides the length of the stream, or the stream does not close cleanly
      and no copy of it is taken as complete. */
  lemma CompleteIsWholeIff(b: nat, stream: seq<byte>, clean: bool)
    requires b > 0
    ensures !clean || |stream| % b == 0 <==>
      forall writes :: CopyOf(b, stream, clean, writes).complete ==> CopyOf(b, stream, clean, writes).stored == stream
  {
    if !clean || |stream| % b == 0 {
      forall writes | CopyOf(b, stream, clean, writes).complete
        ensures CopyOf(b, stream, clean, writes).stored == stream
      {
        CompleteLosesTail(b, stream, clean, writes);
      }
    } else {
      var _ := TailLost(b, stream);
    }
  }

  /** What Store leaves in the file and whether it replies 226, for whatever its caller asks,
      the system answers and the peer sends.  A recv into an empty buffer reads nothing and
      looks like an end of file. */
  function Outcome(b: nat, restartAt: int, os: FileAnswers, bound: bool, net: seq<Incoming>, writes: seq<int>): Copied {
    if !os.openOk then Copied([], false)
    else if !Positioned(restartAt, os) || !bound then Copied([], true)
    else if b == 0 then Copied([], net == [] || net[0].Data?)
    else CopyOf(b, Sent(net), ClosesCleanly(net), writes)
  }

  /** A 226 would be a true one: the file has got the whole stream. */
  ghost predicate TrueReply(
      b: nat, restartAt: int, os: FileAnswers, bound: bool, net: seq<Incoming>, writes: seq<int>) {
    var c := Outcome(b, restartAt, os, bound, net, writes);
    c.complete ==> c.stored == Sent(net)
  }

  /** Nothing is opened, or there is nothing to store, or the position is taken on an id
      with a socket and the stream does not close cleanly or ends with a full buffer. */
  predicate Trustworthy(b: nat, restartAt: int, os: FileAnswers, bound: bool, net: seq<Incoming>) {
    !os.openOk || Sent(net) == []
    || (Positioned(restartAt, os) && bound && b > 0 && (!ClosesCleanly(net) || |Sent(net)| % b == 0))
  }

  lemma TrustworthyIsTrue(
      b: nat, restartAt: int, os: FileAnswers, bound: bool, net: seq<Incoming>, writes: seq<int>)
    requires Trustworthy(b, restartAt, os, bound, net)
    ensures TrueReply(b, restartAt, os, bound, net, writes)
  {
    if os.openOk && Positioned(restartAt, os) && bound && b > 0 {
      var stream := Sent(net);
      var c := CopyOf(b, stream, ClosesCleanly(net), writes);
      if c.complete && stream != [] {
        CompleteLosesTail(b, stream, ClosesCleanly(net), writes);
      }
    }
  }

  /** The reply of Store can be trusted, whatever write answers, exactly then. */
  lemma ReplyTrustedIff(b: nat, restartAt: int, os: FileAnswers, bound: bool, net: seq<Incoming>)
    ensures (forall writes :: TrueReply(b, restartAt, os, bound, net, writes))
      <==> Trustworthy(b, restartAt, os, bound, net)
  {
    if Trustworthy(b, restartAt, os, bound, net) {
      forall writes ensures TrueReply(b, restartAt, os, bound, net, writes) {
        TrustworthyIsTrue(b, restartAt, os, bound, net, writes);
      }
    } else {
      Betrayed(b, restartAt, os, bound, net);
    }
  }

  lemma Betrayed(b: nat, restartAt: int, os: FileAnswers, bound: bool, net: seq<Incoming>)
    requires !Trustworthy(b, restartAt, os, bound, net)
    ensures exists writes :: !TrueReply(b, restartAt, os, bound, net, writes)
  {
    if Positioned(restartAt, os) && bound && b > 0 {
      var writes := TailLost(b, Sent(net));
      assert !TrueReply(b, restartAt, os, bound, net, writes);
    } else {
      assert !TrueReply(b, restartAt, os, bound, net, []);
    }
  }

  datatype OpenMode = Truncate | Append

  datatype StorRetVal = StorRetVal(msg: string, size: int)

  // ---- Conservation of sockets -------------------------------------------------

  ghost predicate Held(table: map<int, int>, s: int) {
    exists id :: id in table && table[id] == s
  }

  /** Every socket ever created is held under exactly one id or has been closed exactly
      once, and nothing else is held or closed. */
  ghost predicate Conserved(table: map<int, int>, created: int, closed: seq<int>) {
    && created >= 0
    && (forall id :: id in table && table[id] != INVALID_SOCKET ==> 1 <= table[id] <= created && table[id] !in closed)
    && (forall i, j :: i in table && j in table && table[i] == table[j] != INVALID_SOCKET ==> i == j)
    && (forall k :: 0 <= k < |closed| ==> 1 <= closed[k] <= created)
    && (forall j, k :: 0 <= j < k < |closed| ==> closed[j] != closed[k])
    && (forall s :: 1 <= s <= created ==> s in closed || Held(table, s))
  }

  /** What closing the entry of an id adds to the log. */
  function ClosedWith(table: map<int, int>, closed: seq<int>, id: int): seq<int> {
    if id !in table then closed + [0]
    else if table[id] == INVALID_SOCKET then closed
    else closed + [table[id]]
  }

  /** Replacing the socket of an id in the table, and closing the one it held. */
  lemma ReplaceConserves(table: map<int, int>, created: int, closed: seq<int>, id: int, s: int, made: int)
    requires Conserved(table, created, closed) && id in table
    requires (s == INVALID_SOCKET && made == created) || s == made == created + 1
    ensures Conserved(table[id := s], made, ClosedWith(table, closed, id))
  {
    var log := ClosedWith(table, closed, id);
    assert table[id] != INVALID_SOCKET ==> log[|closed|] == table[id];
    forall t | t in closed ensures t in log {
      var k :| 0 <= k < |closed| && closed[k] == t;
      assert log[k] == t;
    }
    HeldAfter(table, id, s);
    forall t | 1 <= t <= made && t !in log
      ensures Held(table[id := s], t)
    {}
  }

  /** An id that was not in the table takes a socket, and nothing is closed. */
  lemma EnterConserves(table: map<int, int>, created: int, closed: seq<int>, id: int, s: int, made: int)
    requires Conserved(table, created, closed) && id !in table
    requires (s == INVALID_SOCKET && made == created) || s == made == created + 1
    ensures Conserved(table[id := s], made, closed)
  {
    HeldAfter(table, id, s);
    forall t | 1 <= t <= made && t !in closed
      ensures Held(table[id := s], t)
    {}
  }

  lemma HeldAfter(table: map<int, int>, id: int, s: int)
    ensures Held(table[id := s], s)
    ensures forall t :: Held(table, t) && !(id in table && t == table[id]) ==> Held(table[id := s], t)
  {
    assert table[id := s][id] == s;
    forall t | Held(table, t) && !(id in table && t == table[id])
      ensures Held(table[id := s], t)
    {
      var i :| i in table && table[i] == t;
      assert table[id := s][i] == t;
    }
  }

  /** Resetting an id conserves sockets exactly when the id was in the table: one that
      was not stands for socket 0, which is no data socket of the handler. */
  lemma ResetConservesIff(table: map<int, int>, created: int, closed: seq<int>, id: int)
    requires Conserved(table, created, closed)
    ensures Conserved(table[id := INVALID_SOCKET], created, ClosedWith(table, closed, id)) <==> id in table
  {
    if id in table {
      ReplaceConserves(table, created, closed, id, INVALID_SOCKET, created);
    } else {
      assert ClosedWith(table, closed, id)[|closed|] == 0;
    }
  }

  class Handler {
    var mDataSock: map<int, int>
    var files: map<int, seq<byte>>
    // What the operating system has seen: sockets are numbered as they are created.
    var created: int
    var closed: seq<int>

    constructor ()
      ensures SocketsConserved() && mDataSock == map[] && files == map[] && created == 0
    {
      mDataSock, files, created, closed := map[], map[], 0, [];
    }

    // ---- The socket table ----------------------------------------------------------

    ghost predicate SocketsConserved()
      reads this`mDataSock, this`created, this`closed
    {
      Conserved(mDataSock, created, closed)
    }

    /** socket(): a socket never seen before, or an error. */
    method NewSocket(ok: bool) returns (s: int)
      modifies this`created
      ensures if ok then s == created == old(created) + 1 else s == INVALID_SOCKET && created == old(created)
    {
      if !ok {
        return INVALID_SOCKET;
      }
      created := created + 1;
      s := created;
    }

    method CloseSocket(s: int)
      modifies this`closed
      ensures closed == old(closed) + [s]
    {
      closed := closed + [s];
    }

    /** (*mDataSock)[id] on a std::map: an id that is not there is put in with socket 0. */
    method SocketOf(id: int) returns (s: int)
      modifies this`mDataSock
      ensures id in mDataSock && s == mDataSock[id]
      ensures mDataSock == if id in old(mDataSock) then old(mDataSock) else old(mDataSock)[id := 0]
    {
      if id !in mDataSock {
        mDataSock := mDataSock[id := 0];
      }
      s := mDataSock[id];
    }

    /** Leaves the id INVALID.  The sockets stay conserved when the id was in the table;
        for an id that was not, it closes socket 0, which is nobody's data socket. */
    method ResetDataConnection(id: int)
      modifies this`mDataSock, this`closed
      ensures mDataSock == old(mDataSock)[id := INVALID_SOCKET]
      ensures closed == ClosedWith(old(mDataSock), old(closed), id)
      ensures old(SocketsConserved()) ==> (SocketsConserved() <==> id in old(mDataSock))
    {
      var s := SocketOf(id);
      if s != INVALID_SOCKET {
        var tmpSock := s;
        mDataSock := mDataSock[id := INVALID_SOCKET];
        CloseSocket(tmpSock);
      }
      if old(SocketsConserved()) {
        ResetConservesIff(old(mDataSock), created, old(closed), id);
      }
    }

    /** (*mDataSock)[id] = socket(...) for an id that holds nothing. */
    method Enter(id: int, socketOk: bool)
      requires SocketsConserved() && (id in mDataSock ==> mDataSock[id] == INVALID_SOCKET)
      modifies this`mDataSock, this`created
      ensures SocketsConserved()
      ensures created == old(created) + if socketOk then 1 else 0
      ensures mDataSock == old(mDataSock)[id := if socketOk then created else INVALID_SOCKET]
    {
      var s := NewSocket(socketOk);
      if id in mDataSock {
        ReplaceConserves(mDataSock, old(created), closed, id, s, created);
      } else {
        EnterConserves(mDataSock, old(created), closed, id, s, created);
      }
      mDataSock := mDataSock[id := s];
    }

    /** A transaction begins: its id is fresh, or holds nothing any more. */
    method InitPasvDataConnection(id: int, start: int, len: int, random: nat, refused: int -> bool,
                                  socketOk: bool, optionOk: bool, listenOk: bool) returns (port: int)
      requires SocketsConserved() && Accepted(start, len)
      requires id in mDataSock ==> mDataSock[id] == INVALID_SOCKET
      modifies this`mDataSock, this`created
      ensures SocketsConserved() && id in mDataSock
      ensures mDataSock == old(mDataSock)[id := if socketOk then created else INVALID_SOCKET]
      ensures created == old(created) + if socketOk then 1 else 0
      ensures port != 0 ==> socketOk && !refused(port) && start <= port <= start + len
      ensures port != 0 <==>
        socketOk && optionOk && listenOk
        && exists p :: start + random % len <= p <= start + len && !refused(p)
      ensures port != 0 ==>
        forall p :: start + random % len <= p <= start + len && !refused(p) ==>
          port == start + random % len || (refused(start + random % len) && p <= port)
    {
      Enter(id, socketOk);
      var s := mDataSock[id];
      port := 0;
      if s != INVALID_SOCKET && optionOk {
        var bound, _ := FindPort(start, len, random, refused);
        if listenOk {
          port := bound;
        }
      }
    }

    /** The listening socket gives way to the accepted one.  When select times out it
        stays, and the reply stays empty. */
    method OpenPasvDataConnection(id: int, ready: bool, acceptOk: bool) returns (reply: string)
      requires SocketsConserved() && id in mDataSock && mDataSock[id] != INVALID_SOCKET
      modifies this`mDataSock, this`created, this`closed
      ensures SocketsConserved() && id in mDataSock
      ensures reply == if !ready then "" else if acceptOk then "150 Connection accepted."
                       else "425 Can't open data connection."
      ensures mDataSock == if !ready then old(mDataSock)
                           else old(mDataSock)[id := if acceptOk then created else INVALID_SOCKET]
      ensures closed == if ready then old(closed) + [old(mDataSock[id])] else old(closed)
      ensures created == old(created) + if ready && acceptOk then 1 else 0
    {
      reply := "";
      if ready {
        var accepted := NewSocket(acceptOk);
        ReplaceConserves(old(mDataSock), old(created), old(closed), id, accepted, created);
        CloseSocket(mDataSock[id]);
        mDataSock := mDataSock[id := accepted];
        if accepted != INVALID_SOCKET {
          return "150 Connection accepted.";
        }
        ResetDataConnection(id);
        assert mDataSock == old(mDataSock)[id := INVALID_SOCKET];
        reply := "425 Can't open data connection.";
      }
    }

    /** An active connection that fails leaves its id INVALID. */
    method OpenActiveDataConnection(id: int, socketOk: bool, optionOk: bool, bindOk: bool, connectOk: bool)
      returns (ok: bool)
      requires SocketsConserved()
      requires id in mDataSock ==> mDataSock[id] == INVALID_SOCKET
      modifies this`mDataSock, this`created, this`closed
      ensures SocketsConserved() && id in mDataSock
      ensures ok == (socketOk && optionOk && bindOk && connectOk)
      ensures created == old(created) + if socketOk then 1 else 0
      ensures mDataSock == old(mDataSock)[id := if ok then created else INVALID_SOCKET]
      ensures closed == if socketOk && !ok then old(closed) + [created] else old(closed)
    {
      Enter(id, socketOk);
      var s := mDataSock[id];
      if s != INVALID_SOCKET && optionOk {
        if bindOk {
          if connectOk {
            return true;
          }
        }
      }
      ResetDataConnection(id);
      assert mDataSock == old(mDataSock)[id := INVALID_SOCKET];
      ok := false;
    }

    // ---- Files ------------------------------------------------------------------------

    /** Writes buffer[..n] to the end of the file, in as many short writes as it takes. */
    method SafeWrite(fid: int, buffer: array<byte>, n: nat, writes: seq<int>)
      returns (ok: bool, rest: seq<int>, ghost wrote: nat)
      requires n <= buffer.Length && fid in files
      modifies this`files
      ensures (wrote, rest) == Written(n, writes) && (ok <==> wrote == n)
      ensures ok <==> !exists j: nat :: FailsAt(n, writes, j)
      ensures forall j: nat :: FailsAt(n, writes, j) ==> wrote == Sum(writes[..j]) && rest == writes[j + 1..]
      ensures files == old(files)[fid := old(files[fid]) + buffer[..wrote]]
    {
      rest := writes;
      var wl := 0;
      assert files[fid] + buffer[..0] == files[fid] && files[fid := files[fid]] == files;
      while wl != n
        invariant wl <= n && files == old(files)[fid := old(files[fid]) + buffer[..wl]]
        invariant Written(n, writes) == (wl + Written(n - wl, rest).0, Written(n - wl, rest).1)
        decreases |rest|, n - wl
      {
        var k := n - wl;
        if rest != [] {
          k := if rest[0] < 0 then -1 else if rest[0] < n - wl then rest[0] else n - wl;
          rest := rest[1..];
        }
        if k < 0 {
          WriteFailure(n, writes);
          return false, rest, wl;
        }
        assert buffer[..wl] + buffer[wl..wl + k] == buffer[..wl + k];
        Regroup(old(files[fid]), buffer[..wl], buffer[wl..wl + k]);
        files := files[fid := files[fid] + buffer[wl..wl + k]];
        wl := wl + k;
      }
      WriteFailure(n, writes);
      return true, rest, wl;
    }

    /** select and recv into buffer[ps..]: the bytes read, 0 for an end of file, -1 for an
        error.  A recv into no room reads nothing. */
    static method Receive(buffer: array<byte>, ps: nat, net: seq<Incoming>)
      returns (len: int, rest: seq<Incoming>, ghost bytes: seq<byte>)
      requires ps <= buffer.Length
      modifies buffer
      ensures -1 <= len <= buffer.Length - ps && |bytes| == if len > 0 then len else 0
      ensures buffer[..ps + |bytes|] == old(buffer[..ps]) + bytes
      ensures Sent(net) == bytes + Sent(rest) && ClosesCleanly(rest) == ClosesCleanly(net)
      ensures len > 0 ==> Weight(rest) < Weight(net)
      ensures ps < buffer.Length && len <= 0 ==> Sent(rest) == [] && (len == 0 <==> ClosesCleanly(net))
      ensures ps == buffer.Length ==> len == if net == [] || net[0].Data? then 0 else -1
    {
      len, rest, bytes := 0, net, [];
      if net != [] {
        match net[0] {
          case Data(b) =>
            var room := buffer.Length - ps;
            len := if |b| <= room then |b| else room;
            if len > 0 {
              bytes := b[..len];
              forall k | 0 <= k < len {
                buffer[ps + k] := b[k];
              }
              var tail := net[1..];
              rest := if len == |b| then tail else [Data(b[len..])] + tail;
              assert len < |b| ==> rest[1..] == tail;
              assert b[..len] + (b[len..] + Sent(tail)) == b + Sent(tail);
              assert len == |b| ==> b[len..] + Sent(tail) == Sent(tail);
            }
          case _ =>
            len := -1;
        }
      }
    }

    /** Empties buffer[..ps] into the file. */
    method Flush(fid: int, buffer: array<byte>, ps: nat, writes: seq<int>,
                 ghost start: map<int, seq<byte>>, ghost flushed: seq<byte>)
      returns (ok: bool, rest: seq<int>, ghost after: seq<byte>)
      requires ps <= buffer.Length && fid in start && files == start[fid := start[fid] + flushed]
      modifies this`files
      ensures files == start[fid := start[fid] + after]
      ensures after == flushed + buffer[..ps][..Written(ps, writes).0]
      ensures ok == (Written(ps, writes).0 == ps) && rest == Written(ps, writes).1
    {
      ghost var wrote;
      ok, rest, wrote := SafeWrite(fid, buffer, ps, writes);
      assert buffer[..ps][..wrote] == buffer[..wrote];
      after := flushed + buffer[..ps][..wrote];
      Regroup(start[fid], flushed, buffer[..wrote]);
    }

    /** What a turn does after a recv that is no error: the buffer is written when it is
        full or the stream has ended. */
    method Settle(fid: int, buffer: array<byte>, ps: nat, received: nat, writes: seq<int>,
                  ghost clean: bool, ghost start: map<int, seq<byte>>, ghost stream: seq<byte>, ghost whole: Copied,
                  ghost flushed: seq<byte>, ghost tail: seq<byte>, ghost got: seq<byte>)
      returns (going: bool, len: int, after: nat, answers: seq<int>, ghost stored: seq<byte>)
      requires ps <= buffer.Length && fid in start && files == start[fid := start[fid] + flushed]
      requires Midway(buffer.Length, stream, whole, clean, flushed, buffer[..ps], tail, got, writes)
      requires received == 0 && buffer.Length > 0 ==> clean && tail == [] && ps < buffer.Length
      requires received > 0 ==> buffer.Length > 0
      modifies this`files
      ensures files == start[fid := start[fid] + stored]
      ensures NoWriteError(writes) ==> NoWriteError(answers)
      ensures going ==>
        received > 0 && after < buffer.Length
        && Midway(buffer.Length, stream, whole, clean, stored, buffer[..after], tail, got, answers)
      ensures !going ==>
        Over(buffer.Length, stream, whole, stored, got, len)
        && (buffer.Length > 0 && NoWriteError(writes) ==> got == stream)
      ensures buffer.Length == 0 ==> !going && stored == flushed && len == 0
    {
      going, len, after, answers, stored := true, received, ps, writes, flushed;
      ghost var b, block := buffer.Length, buffer[..ps];
      if received == 0 || ps == buffer.Length {
        var ok;
        ok, answers, stored := Flush(fid, buffer, ps, writes, start, flushed);
        going := received > 0 && ok;
        after := 0;
        if received > 0 {
          BufferFull(b, stream, whole, clean, flushed, block, tail, got, writes);
          len := if ok then len else -1;
        } else if b > 0 {
          StreamEnds(b, stream, whole, clean, flushed, block, got, writes);
        }
      }
    }

    /** One turn of the copy loop. */
    method CopyTurn(fid: int, buffer: array<byte>, ps: nat, net: seq<Incoming>, writes: seq<int>,
                    ghost start: map<int, seq<byte>>, ghost stream: seq<byte>, ghost whole: Copied,
                    ghost flushed: seq<byte>, ghost got: seq<byte>)
      returns (going: bool, len: int, after: nat, more: seq<Incoming>, answers: seq<int>,
               ghost stored: seq<byte>, ghost had: seq<byte>)
      requires ps <= buffer.Length && (buffer.Length > 0 ==> ps < buffer.Length)
      requires fid in start && files == start[fid := start[fid] + flushed]
      requires Midway(buffer.Length, stream, whole, ClosesCleanly(net), flushed, buffer[..ps], Sent(net), got, writes)
      modifies this`files, buffer
      ensures files == start[fid := start[fid] + stored]
      ensures ClosesCleanly(more) == ClosesCleanly(net) && (NoWriteError(writes) ==> NoWriteError(answers))
      ensures going ==>
        after < buffer.Length && Weight(more) < Weight(net)
        && Midway(buffer.Length, stream, whole, ClosesCleanly(net), stored, buffer[..after], Sent(more), had, answers)
      ensures !going ==>
        Over(buffer.Length, stream, whole, stored, had, len)
        && (buffer.Length > 0 && NoWriteError(writes) ==> had == stream)
      ensures buffer.Length == 0 ==>
        !going && stored == flushed && len == if net == [] || net[0].Data? then 0 else -1
    {
      ghost var head, bytes := buffer[..ps], [];
      len, more, bytes := Receive(buffer, ps, net);
      BytesArrive(buffer.Length, stream, whole, ClosesCleanly(net), flushed, head, bytes, Sent(more), got, writes);
      had := got + bytes;
      if len < 0 {
        going, after, answers, stored := false, ps, writes, flushed;
        if buffer.Length > 0 {
          StreamEnds(buffer.Length, stream, whole, ClosesCleanly(net), flushed, buffer[..ps], had, writes);
        }
      } else {
        going, len, after, answers, stored :=
          Settle(fid, buffer, ps + len, len, writes, ClosesCleanly(net), start, stream, whole, flushed,
                 Sent(more), had);
      }
    }

    /** The copy loop of Store.  At every turn the file holds what it began with and the
        bytes flushed, and the buffer holds the rest of the bytes received.  However recv
        cuts the stream, the outcome is the copy of the stream as a whole. */
    method CopyIn(fid: int, id: int, buffer: array<byte>, net: seq<Incoming>, writes: seq<int>)
      returns (len: int, ghost got: seq<byte>, ghost flushed: seq<byte>)
      requires fid in files && id in mDataSock
      modifies this`files, buffer
      ensures files == old(files)[fid := old(files[fid]) + flushed]
      ensures flushed <= got <= Sent(net)
      ensures mDataSock[id] == INVALID_SOCKET ==> len == 0 && got == []
      ensures mDataSock[id] != INVALID_SOCKET && buffer.Length > 0 ==>
        Copied(flushed, len >= 0) == CopyOf(buffer.Length, Sent(net), ClosesCleanly(net), writes)
        && (len >= 0 || NoWriteError(writes) ==> got == Sent(net))
      ensures mDataSock[id] != INVALID_SOCKET && buffer.Length == 0 ==>
        flushed == [] && (len >= 0 <==> net == [] || net[0].Data?)
    {
      len, got, flushed := 0, [], [];
      var ps: nat := 0;
      var more, answers := net, writes;
      ghost var b, stream, clean := buffer.Length, Sent(net), ClosesCleanly(net);
      ghost var whole := if b > 0 then CopyOf(b, stream, clean, writes) else Copied([], false);
      assert files[fid] + flushed == files[fid] && files[fid := files[fid]] == files;
      NothingToJoin(stream);
      NothingToJoin(whole.stored);
      var going := mDataSock[id] != INVALID_SOCKET;
      while going
        invariant files == old(files)[fid := old(files[fid]) + flushed]
        invariant going ==>
          ps <= buffer.Length && (b > 0 ==> ps < b)
          && Midway(b, stream, whole, clean, flushed, buffer[..ps], Sent(more), got, answers)
        invariant clean == ClosesCleanly(more) && (NoWriteError(writes) ==> NoWriteError(answers))
        invariant !going && mDataSock[id] != INVALID_SOCKET ==>
          Over(b, stream, whole, flushed, got, len)
          && (b > 0 && NoWriteError(writes) ==> got == stream)
        invariant mDataSock[id] == INVALID_SOCKET ==> !going && len == 0 && got == [] && flushed == []
        invariant b == 0 ==> flushed == [] && (going ==> more == net)
        invariant b == 0 && !going && mDataSock[id] != INVALID_SOCKET ==> (len >= 0 <==> net == [] || net[0].Data?)
        decreases going, Weight(more)
      {
        going, len, ps, more, answers, flushed, got :=
          CopyTurn(fid, buffer, ps, more, answers, old(files), stream, whole, flushed, got);
      }
    }

    static function BaseOf(files: map<int, seq<byte>>, fid: int, mode: OpenMode): seq<byte> {
      if mode.Truncate? || fid !in files then [] else files[fid]
    }

    /** Store gets as far as its copy loop. */
    static predicate Copies(bufferSize: nat, restartAt: int, os: FileAnswers) {
      os.openOk && bufferSize > 0 && Positioned(restartAt, os)
    }

    /** What Store promises when it gets as far as copying from a socket. */
    static ghost predicate StoredAs(
        bufferSize: nat, net: seq<Incoming>, writes: seq<int>, complete: bool, got: seq<byte>, flushed: seq<byte>)
      requires bufferSize > 0
    {
      && Copied(flushed, complete) == CopyOf(bufferSize, Sent(net), ClosesCleanly(net), writes)
      && (complete || NoWriteError(writes) ==> got == Sent(net))
    }

    /** Store: the file ends up with what it began with and a prefix of the bytes received:
        the copy of the whole stream, and a 226 when that is complete.  When no write fails
        the reply says whether the peer closed cleanly, and then the file has every byte.
        The last write is not looked at: a 226 may hide the loss of the bytes that did not
        fill a buffer.  A file that cannot be positioned and an id without a socket get a 226
        too, and nothing is stored. */
    method Store(bufferSize: nat, fid: int, restartAt: int, mode: OpenMode, id: int,
                 os: FileAnswers, net: seq<Incoming>, writes: seq<int>)
      returns (ret: StorRetVal, ghost got: seq<byte>, ghost flushed: seq<byte>)
      requires SocketsConserved() && id in mDataSock
      requires mode.Truncate? ==> restartAt <= 0
      modifies this`files, this`mDataSock, this`closed
      ensures SocketsConserved() && mDataSock == old(mDataSock)[id := INVALID_SOCKET]
      ensures closed == ClosedWith(old(mDataSock), old(closed), id)
      ensures files ==
        if os.openOk
        then old(files)[fid := (if mode.Append? && fid in old(files) then old(files)[fid] else []) + flushed]
        else old(files)
      ensures flushed <= got <= Sent(net)
      ensures Copied(flushed, ret.msg == "226 Transfer complete.")
        == Outcome(bufferSize, restartAt, os, old(mDataSock[id]) != INVALID_SOCKET, net, writes)
      ensures Copies(bufferSize, restartAt, os) && old(mDataSock[id]) != INVALID_SOCKET ==>
        StoredAs(bufferSize, net, writes, ret.msg == "226 Transfer complete.", got, flushed)
      ensures Copies(bufferSize, restartAt, os) && old(mDataSock[id]) != INVALID_SOCKET && NoWriteError(writes) ==>
        got == Sent(net) && (ret.msg == "226 Transfer complete." <==> ClosesCleanly(net))
        && (ClosesCleanly(net) ==> flushed == got)
      ensures Copies(bufferSize, restartAt, os) && old(mDataSock[id]) != INVALID_SOCKET ==>
        ret.msg == "226 Transfer complete." ==> got == Sent(net) && |got| - |flushed| <= |got| % bufferSize
      ensures os.openOk && (!Positioned(restartAt, os) || old(mDataSock[id]) == INVALID_SOCKET) ==>
        flushed == [] && ret.msg == "226 Transfer complete."
      ensures !os.openOk ==> flushed == [] && ret.msg == "550 Can't store file."
      ensures ret.size == if fid in files then |files[fid]| else -1
    {
      var len;
      len, got, flushed := FillFile(bufferSize, fid, restartAt, mode, id, os, net, writes);
      if bufferSize > 0 {
        if NoWriteError(writes) { CopiesAll(bufferSize, Sent(net), ClosesCleanly(net), writes); }
        if CopyOf(bufferSize, Sent(net), ClosesCleanly(net), writes).complete {
          CompleteLosesTail(bufferSize, Sent(net), ClosesCleanly(net), writes);
        }
      }
      ResetDataConnection(id);
      var msg := if len < 0 || !os.openOk then "550 Can't store file." else "226 Transfer complete.";
      var size := if fid in files then |files[fid]| else -1;
      ret := StorRetVal(msg, size);
    }

    /** Store up to the closing of its file. */
    method FillFile(bufferSize: nat, fid: int, restartAt: int, mode: OpenMode, id: int,
                    os: FileAnswers, net: seq<Incoming>, writes: seq<int>)
      returns (len: int, ghost got: seq<byte>, ghost flushed: seq<byte>)
      requires id in mDataSock
      modifies this`files
      ensures files ==
        if os.openOk
        then old(files)[fid := (if mode.Append? && fid in old(files) then old(files)[fid] else []) + flushed]
        else old(files)
      ensures flushed <= got <= Sent(net) && (!os.openOk ==> got == [])
      ensures Copies(bufferSize, restartAt, os) && mDataSock[id] != INVALID_SOCKET ==>
        StoredAs(bufferSize, net, writes, len >= 0, got, flushed)
      ensures !Positioned(restartAt, os) || mDataSock[id] == INVALID_SOCKET ==> got == [] && len == 0
      ensures os.openOk ==>
        Copied(flushed, len >= 0)
        == Outcome(bufferSize, restartAt, os, mDataSock[id] != INVALID_SOCKET, net, writes)
    {
      len, got, flushed := 0, [], [];
      var buffer := new byte[bufferSize];
      if os.openOk {
        files := files[fid := if mode.Truncate? || fid !in files then [] else files[fid]];
        ghost var base := files[fid];
        assert base + flushed == base && files[fid := base] == files;
        if (restartAt > 0 && os.seekOk) || restartAt == 0 {
          len, got, flushed := CopyIn(fid, id, buffer, net, writes);
        }
      }
    }

    /** Retrieve: what goes out is a prefix of the file from the restart position, and
        all of it when no send fails.  A send takes the whole block or fails; as long as none
        answers 0 a 226 says that all went out.  A position that is refused or behind the
        end of the file and an id without a socket get a 226 too, and nothing is sent. */
    method Retrieve(bufferSize: nat, fid: int, restartAt: int, id: int,
                    os: FileAnswers, blocks: seq<nat>, sends: seq<int>)
      returns (reply: string, out: seq<byte>)
      requires SocketsConserved() && id in mDataSock
      modifies this`mDataSock, this`closed
      ensures SocketsConserved() && mDataSock == old(mDataSock)[id := INVALID_SOCKET]
      ensures closed == ClosedWith(old(mDataSock), old(closed), id)
      ensures out != [] ==>
        os.openOk && fid in files && 0 <= restartAt <= |files[fid]| && out <= files[fid][restartAt..]
      ensures os.openOk && fid in files && 0 <= restartAt <= |files[fid]| && (restartAt == 0 || os.seekOk)
        && bufferSize > 0 && old(mDataSock[id]) != INVALID_SOCKET && NoSendError(sends)
        ==> out == files[fid][restartAt..] && reply == "226 Transfer complete."
      ensures os.openOk && fid in files && 0 <= restartAt <= |files[fid]| && Positioned(restartAt, os)
        && bufferSize > 0 && old(mDataSock[id]) != INVALID_SOCKET && 0 !in sends
        ==> (reply == "226 Transfer complete." <==> out == files[fid][restartAt..])
      ensures os.openOk && fid in files
        && (!Positioned(restartAt, os) || restartAt > |files[fid]| || bufferSize == 0
            || old(mDataSock[id]) == INVALID_SOCKET)
        ==> out == [] && reply == "226 Transfer complete."
      ensures !os.openOk || fid !in files ==> out == [] && reply == "550 Can't retrieve File."
      ensures reply == "226 Transfer complete." || reply == "550 Can't retrieve File."
      ensures os.openOk && fid in files && 0 <= restartAt < |files[fid]| && Positioned(restartAt, os)
        && bufferSize > 0 && old(mDataSock[id]) != INVALID_SOCKET && sends != [] && sends[0] <= 0
        ==> out == [] && reply == if sends[0] < 0 then "550 Can't retrieve File." else "226 Transfer complete."
    {
      var len := 0;
      out := [];
      var isOpen := os.openOk && fid in files;
      if isOpen && (restartAt == 0 || (restartAt > 0 && os.seekOk)) {
        len, out := CopyOut(bufferSize, files[fid], restartAt, id, blocks, sends);
      }
      ResetDataConnection(id);
      reply := if len < 0 || !isOpen then "550 Can't retrieve File." else "226 Transfer complete.";
    }

    /** The copy loop of Retrieve. */
    method CopyOut(bufferSize: nat, file: seq<byte>, restartAt: nat, id: int, blocks: seq<nat>, sends: seq<int>)
      returns (len: int, out: seq<byte>)
      requires id in mDataSock
      ensures restartAt <= |file| ==> out <= file[restartAt..]
      ensures restartAt <= |file| && bufferSize > 0 && mDataSock[id] != INVALID_SOCKET && 0 !in sends ==>
        (len >= 0 <==> out == file[restartAt..]) && (NoSendError(sends) ==> len >= 0)
      ensures restartAt > |file| || bufferSize == 0 || mDataSock[id] == INVALID_SOCKET ==> out == [] && len == 0
      ensures restartAt < |file| && bufferSize > 0 && mDataSock[id] != INVALID_SOCKET && Refuses(sends) ==>
        out == [] && len == sends[0]
    {
      len, out := 0, [];
      var pos: int := restartAt;
      var sizes, answers := blocks, sends;
      while mDataSock[id] != INVALID_SOCKET
        invariant restartAt <= pos && (restartAt <= |file| ==> pos <= |file| && out == file[restartAt..pos])
        invariant NoSendError(sends) ==> NoSendError(answers)
        invariant 0 !in sends ==> 0 !in answers
        invariant len >= 0
        invariant sends != [] && sends[0] <= 0 ==> pos == restartAt && answers == sends
        invariant restartAt > |file| || bufferSize == 0 || mDataSock[id] == INVALID_SOCKET ==> out == [] && len == 0
        decreases |file| - pos
      {
        var blockSize := BlockSize(bufferSize, if sizes == [] then bufferSize else sizes[0], |file| - pos);
        sizes := if sizes == [] then [] else sizes[1..];
        if blockSize <= 0 {
          break;
        }
        var block := file[pos..pos + blockSize];
        len := blockSize;
        if answers != [] {
          assert answers[0] in answers;
          len := if answers[0] > 0 then blockSize else answers[0];
          assert forall x :: x in answers[1..] ==> x in answers;
          answers := answers[1..];
        }
        if len <= 0 {
          assert |file[restartAt..pos]| < |file[restartAt..]|;
          break;
        }
        assert file[restartAt..pos] + block == file[restartAt..pos + blockSize];
        out := out + block;
        pos := pos + blockSize;
      }
    }
  }

  predicate NoSendError(sends: seq<int>) {
    forall k :: k in sends ==> k > 0
  }

  predicate Refuses(sends: seq<int>) {
    sends != [] && sends[0] <= 0
  }

  /** What read answers: at most the buffer and what is left, a short count if asked
      for, and 0 at the end of the file only. */
  function BlockSize(bufferSize: nat, asked: nat, left: int): (n: nat)
    ensures n <= bufferSize && (n == 0 <==> bufferSize == 0 || left <= 0) && (n > 0 ==> n <= left)
  {
    var most := if left <= 0 then 0 else if left < bufferSize then left else bufferSize;
    if 0 < asked < most then asked else most
  }
}
