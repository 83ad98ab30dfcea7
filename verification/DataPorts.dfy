// The search for a free data port: the same loop runs in the PASV branch of the
// metaserver and in InitPasvDataConnection of a slave, on 16-bit port numbers.

module DataPorts {

  /** What SetDataPortRange accepts of two unsigned shorts. */
  predicate Accepted(start: int, len: int) {
    0 < start && 0 < len && start + len <= 65535
  }

  function Unsigned16(x: int): int {
    x % 65536
  }

  /** The i16 in which Thrift carries the length of the range. */
  function Signed16(x: int): int {
    var u := Unsigned16(x);
    if u < 32768 then u else u - 65536
  }

  /** SetDataPortRange: a range that is taken ends at a port. */
  method SetDataPortRange(usStart: int, usLen: int) returns (ok: bool)
    requires 0 <= usStart < 65536 && 0 <= usLen < 65536
    ensures ok == Accepted(usStart, usLen)
    ensures ok <==> usStart != 0 && usLen != 0 && usStart + usLen < 65536
  {
    ok := usLen != 0 && usStart > 0 && usStart + usLen <= 65535;
  }

  /** A range survives the trip to the slave, where lengths above 32767 arrive negative. */
  lemma RangeSurvivesThrift(start: int, len: int)
    requires Accepted(start, len)
    ensures Unsigned16(Signed16(len)) == len && Unsigned16(start) == start
    ensures -32768 <= Signed16(len) <= 32767 && (len > 32767 <==> Signed16(len) < 0)
  {
  }

  /** The port the search starts from; the search goes over [First, start + len]. */
  function First(start: int, len: int, random: nat): int
    requires Accepted(start, len)
  {
    start + random % len
  }

  function Span(start: int, len: int, random: nat): nat
    requires Accepted(start, len)
  {
    start + len - First(start, len, random)
  }

  /** The k-th port tried: the random one, and then from the top of the range down. */
  function Candidate(first: int, top: int, k: nat): int {
    if k == 0 then first else top - (k - 1)
  }

  /** Each port of [first, top] is a candidate once, and no other port is. */
  lemma CandidatesCover(first: int, top: int, p: int)
    requires first <= top
    ensures first <= p <= top <==> exists k: nat :: k <= top - first && Candidate(first, top, k) == p
    ensures forall j: nat, k: nat :: j < k <= top - first ==> Candidate(first, top, j) != Candidate(first, top, k)
  {
    if p == first {
      assert Candidate(first, top, 0) == p;
    } else if first < p <= top {
      assert Candidate(first, top, top - p + 1) == p;
    }
  }

  /** The candidates before the last one were refused: any other free port lies below it. */
  lemma TopmostFree(first: int, top: int, tried: seq<int>, refused: int -> bool)
    requires 0 < |tried| <= top - first + 1
    requires forall k :: 0 <= k < |tried| ==> tried[k] == Candidate(first, top, k)
    requires forall k :: 0 <= k < |tried| - 1 ==> refused(tried[k])
    ensures forall p :: first <= p <= top && !refused(p) ==>
      tried[|tried| - 1] == first || (refused(first) && p <= tried[|tried| - 1])
  {
    if |tried| > 1 {
      assert refused(tried[0]);
      forall p | tried[|tried| - 1] < p <= top
        ensures refused(p)
      {
        assert tried[top - p + 1] == p;
      }
    }
  }

  /** The port bound, or 0 when the loop came round to its first port again. */
  method FindPort(start: int, len: int, random: nat, refused: int -> bool) returns (port: int, tried: seq<int>)
    requires Accepted(start, len)
    ensures 0 < |tried| <= Span(start, len, random) + 1
    ensures forall k :: 0 <= k < |tried| ==>
      tried[k] == Candidate(First(start, len, random), start + len, k) && 0 < tried[k] <= 65535
    ensures tried[0] == start + random % len
    ensures |tried| > 1 ==> tried[1] == start + len
    ensures forall k :: 1 <= k < |tried| - 1 ==> tried[k + 1] == tried[k] - 1
    ensures port != 0 ==> port == tried[|tried| - 1] && !refused(port)
    ensures port != 0 ==> forall k :: 0 <= k < |tried| - 1 ==> refused(tried[k])
    ensures port != 0 ==>
      forall p :: start + random % len <= p <= start + len && !refused(p) ==>
        port == start + random % len || (refused(start + random % len) && p <= port)
    ensures port == 0 <==> forall p :: First(start, len, random) <= p <= start + len ==> refused(p)
  {
    var usFirstTry := Unsigned16(start + random % len);
    port, tried := SearchFrom(usFirstTry, start + len, refused);
  }

  /** The loop, from the random port. */
  method SearchFrom(usFirstTry: int, top: int, refused: int -> bool) returns (port: int, tried: seq<int>)
    requires 0 < usFirstTry <= top <= 65535
    ensures 0 < |tried| <= top - usFirstTry + 1
    ensures forall k :: 0 <= k < |tried| ==> tried[k] == Candidate(usFirstTry, top, k)
    ensures port != 0 ==> port == tried[|tried| - 1] && !refused(port)
    ensures port != 0 ==> forall k :: 0 <= k < |tried| - 1 ==> refused(tried[k])
    ensures port != 0 ==>
      forall p :: usFirstTry <= p <= top && !refused(p) ==> port == usFirstTry || (refused(usFirstTry) && p <= port)
    ensures port == 0 <==> forall p :: usFirstTry <= p <= top ==> refused(p)
  {
    var usTriedPort := usFirstTry;
    tried := [];
    port := 0;
    while true
      invariant |tried| <= top - usFirstTry
      invariant usTriedPort == Candidate(usFirstTry, top, |tried|)
      invariant forall k :: 0 <= k < |tried| ==> tried[k] == Candidate(usFirstTry, top, k) && refused(tried[k])
      decreases top - usFirstTry - |tried|
    {
      tried := tried + [usTriedPort];
      if !refused(usTriedPort) {
        port := usTriedPort;
        TopmostFree(usFirstTry, top, tried, refused);
        break;
      }
      usTriedPort := Unsigned16(usTriedPort - 1);
      if usTriedPort < usFirstTry {
        usTriedPort := Unsigned16(top);
      }
      if usTriedPort == usFirstTry {
        forall p | usFirstTry <= p <= top
          ensures refused(p)
        {
          CandidatesCover(usFirstTry, top, p);
          var k: nat :| k <= top - usFirstTry && Candidate(usFirstTry, top, k) == p;
          assert tried[k] == p;
        }
        break;
      }
    }
  }
}
