// System parameters (config.py): the ring size, the replication factor and
// the read and write quorums, and the check that classifies them.

module Config {

  /** Bits of the identifier space: ids live on a ring of 2^M positions. */
  const M: nat := 6
  /** Replicas per key. */
  const N: int := 3
  /** Replies a quorum read waits for. */
  const R: int := 2
  /** Acknowledgements a quorum write waits for. */
  const W: int := 2
  const ReadRepairEnabled: bool := true

  /** The consistency a choice of quorums gives. */
  datatype Level = Strong | Moderate | Eventual

  /**
   * STRONG when every read quorum meets every write quorum (R + W > N),
   * MODERATE at the boundary, EVENTUAL below it.
   */
  function Classify(r: int, w: int, n: int): (l: Level)
    ensures l == Strong <==> r + w > n
    ensures l == Moderate <==> r + w == n
    ensures l == Eventual <==> r + w < n
  {
    if r + w > n then Strong
    else if r + w == n then Moderate
    else Eventual
  }

  /** The report `validate_quorum` returns. */
  datatype Report = Report(n: int, r: int, w: int, level: Level, valid: bool)

  /**
   * `validate_quorum` for given settings: both quorums must be at least
   * one and at most the number of replicas.
   */
  function ValidateQuorumFor(n: int, r: int, w: int): (rep: Report)
    ensures rep.n == n && rep.r == r && rep.w == w
    ensures rep.level == Classify(r, w, n)
    ensures rep.valid <==> 1 <= r <= n && 1 <= w <= n
  {
    Report(n, r, w, Classify(r, w, n), r <= n && w <= n && r > 0 && w > 0)
  }

  /** `validate_quorum` on the shipped constants. */
  function ValidateQuorum(): Report
  {
    ValidateQuorumFor(N, R, W)
  }

  /** The shipped settings are valid and strongly consistent. */
  lemma ShippedConfigIsStrong()
    ensures ValidateQuorum().valid && ValidateQuorum().level == Strong
  {
  }

  /**
   * What STRONG promises: when R + W > N, any R replicas read and any W
   * replicas written among the same N share at least one replica.
   */
  lemma StrongQuorumsIntersect(all: set<int>, rd: set<int>, wr: set<int>, r: int, w: int)
    requires rd <= all && wr <= all
    requires |rd| >= r && |wr| >= w && r + w > |all|
    ensures rd * wr != {}
  {
    assert |rd + wr| <= |all| by {
      assert all == (rd + wr) + (all - (rd + wr));
    }
    assert |rd + wr| + |rd * wr| == |rd| + |wr|;
  }

  /** The integers from `lo` up to but not including `hi`. */
  function Span(lo: int, hi: int): (s: set<int>)
    ensures forall x :: x in s <==> lo <= x < hi
    ensures |s| == if lo <= hi then hi - lo else 0
    decreases hi - lo
  {
    if lo >= hi then {}
    else
      var rest := Span(lo + 1, hi);
      assert lo !in rest;
      {lo} + rest
  }

  /**
   * And without it there is no such promise: when R + W <= N (and both
   * are at least 0) some R replicas and some other W replicas of N are
   * disjoint, so a read can miss the latest write.
   */
  lemma WeakQuorumsCanMiss(n: int, r: int, w: int)
    requires 0 <= r && 0 <= w && r + w <= n
    ensures exists all: set<int>, rd: set<int>, wr: set<int> ::
      |all| == n && rd <= all && wr <= all && |rd| == r && |wr| == w && rd * wr == {}
  {
    var all, rd, wr := Span(0, n), Span(0, r), Span(r, r + w);
    assert |all| == n && rd <= all && wr <= all && |rd| == r && |wr| == w && rd * wr == {};
  }
}
