// Quorum reads and writes (consistency/quorum.py): a write succeeds with W
// acknowledgements, a read needs R replies and answers with the version
// `get_latest_version` picks among them (the first one read on a conflict),
// naming the replicas that hold another version for read repair.

module Quorum {
  import opened Base
  import opened VectorClocks
  import opened Routing
  import opened Replication
  import Config

  /** The `ValueError` `_validate_quorum` raises. */
  datatype QuorumError = InvalidRead(r: int, n: int) | InvalidWrite(w: int, n: int)

  /** `_validate_quorum`: the read quorum is checked first, then the write quorum. */
  function CheckQuorum(r: int, w: int, n: int): (e: Option<QuorumError>)
    ensures e.None? <==> 1 <= r <= n && 1 <= w <= n
    ensures e == Some(InvalidRead(r, n)) <==> r < 1 || r > n
    ensures e == Some(InvalidWrite(w, n)) <==> 1 <= r <= n && (w < 1 || w > n)
  {
    if r < 1 || r > n then Some(InvalidRead(r, n))
    else if w < 1 || w > n then Some(InvalidWrite(w, n))
    else None
  }

  /** The manager's check and `validate_quorum` in config.py accept the same settings. */
  lemma CheckQuorumAgreesWithConfig(r: int, w: int, n: int)
    ensures CheckQuorum(r, w, n).None? <==> Config.ValidateQuorumFor(n, r, w).valid
  {
  }

  /** What a quorum read ends in. The source answers `None` for the first three. */
  datatype GetOutcome<V> =
    | NoReplicas
    | TimedOut
    | TooFewReads(count: nat)
    | Crashed
    | Answer(value: V, version: Clock, stale: seq<NodeInfo>, repairs: seq<(NodeInfo, PutReplicaMsg<V>)>)

  /** The version of every read, in order. */
  function Versions<V>(rds: seq<Read<V>>): (vs: seq<Clock>)
    ensures |vs| == |rds|
    ensures forall i :: 0 <= i < |rds| ==> vs[i] == rds[i].version
  {
    seq(|rds|, i requires 0 <= i < |rds| => rds[i].version)
  }

  /**
   * The version a quorum read answers with: the latest one, or the first
   * one read when the versions conflict. Uses the repaired latest-version
   * rule (see `VectorClocks.LatestAgreed`).
   */
  function Pick(vs: seq<Clock>): (v: Clock)
    requires vs != []
    ensures v in vs
  {
    match LatestAgreed(vs)
    case Some(l) => LatestAgreedDominatesAll(vs, l); l
    case None => vs[0]
  }

  /** The pick as the source writes it, with `get_latest_version` as written. */
  function PickAsWritten(vs: seq<Clock>): (v: Clock)
    requires vs != []
    ensures v in vs
  {
    match Latest(vs)
    case Some(l) =>
      (if |vs| >= 2 then LatestIsAfterAllOthers(vs, l); l else l)
    case None => vs[0]
  }

  /**
   * With reads `[{1: 1}, {1: 2}, {1: 2}]` (one lagging replica listed
   * first), the read as written answers with the stale `{1: 1}`; the
   * repaired rule answers with `{1: 2}`.
   */
  lemma ReadAsWrittenReturnsStale()
    ensures var vs: seq<Clock> := [map[1 := 1], map[1 := 2], map[1 := 2]];
      PickAsWritten(vs) == map[1 := 1] && Pick(vs) == map[1 := 2] && Before(PickAsWritten(vs), Pick(vs))
  {
    LatestAsWrittenConflictsOnAgreement();
    LatestAgreedPicksNewest();
  }

  /** The loop of `quorum_get` that takes the chosen version's value and lists the stale replicas. */
  method ScanReads<V>(rds: seq<Read<V>>, latest: Clock) returns (latestValue: Option<V>, stale: seq<NodeInfo>)
    ensures latestValue == LastValue(rds, latest)
    ensures stale == Stale(rds, latest)
  {
    latestValue, stale := None, [];
    var i := 0;
    while i < |rds|
      invariant 0 <= i <= |rds|
      invariant latestValue == LastValue(rds[..i], latest)
      invariant stale == Stale(rds[..i], latest)
    {
      ScanStep(rds, i, latest);
      if Equiv(rds[i].version, latest) {
        latestValue := Some(rds[i].value);
      } else {
        stale := stale + [rds[i].node];
      }
      i := i + 1;
    }
    assert rds[..i] == rds;
  }

  /** One more read either supplies the value or joins the stale list. */
  lemma ScanStep<V>(rds: seq<Read<V>>, i: nat, latest: Clock)
    requires i < |rds|
    ensures LastValue(rds[..i + 1], latest) ==
      if Equiv(rds[i].version, latest) then Some(rds[i].value) else LastValue(rds[..i], latest)
    ensures Stale(rds[..i + 1], latest) ==
      Stale(rds[..i], latest) + (if Equiv(rds[i].version, latest) then [] else [rds[i].node])
  {
    assert rds[..i + 1][..i] == rds[..i];
  }

  /**
   * When the versions read do not conflict, the answer is equal to or
   * after every version read.
   */
  lemma PickIsNewest(vs: seq<Clock>)
    requires vs != [] && LatestAgreed(vs).Some?
    ensures forall x :: x in vs ==> Dominates(Pick(vs), x)
  {
    LatestAgreedDominatesAll(vs, LatestAgreed(vs).value);
  }

  /**
   * When `get_latest_version` finds one newest version, the pick as written
   * is after every read holding another version.
   */
  lemma PickAsWrittenIsAfter<V>(rds: seq<Read<V>>)
    requires rds != [] && Latest(Versions(rds)).Some?
    ensures forall i :: 0 <= i < |rds| && rds[i].version != PickAsWritten(Versions(rds)) ==>
      Before(rds[i].version, PickAsWritten(Versions(rds)))
  {
    var vs := Versions(rds);
    if |vs| >= 2 {
      LatestIsAfterAllOthers(vs, Latest(vs).value);
    }
  }

  /** The repaired pick is equal to or after the version of every read. */
  lemma PickIsNewestRead<V>(rds: seq<Read<V>>)
    requires rds != [] && LatestAgreed(Versions(rds)).Some?
    ensures forall i :: 0 <= i < |rds| ==> Dominates(Pick(Versions(rds)), rds[i].version)
  {
    var vs := Versions(rds);
    PickIsNewest(vs);
    assert forall i :: 0 <= i < |rds| ==> rds[i].version == vs[i] && vs[i] in vs;
  }

  /** The replicas whose version differs from `v`, in the order read. */
  function Stale<V>(rds: seq<Read<V>>, v: Clock): seq<NodeInfo>
  {
    if rds == [] then []
    else
      var last := rds[|rds| - 1];
      Stale(rds[..|rds| - 1], v) + (if Equiv(last.version, v) then [] else [last.node])
  }

  /** The value of the last read whose version equals `v`. */
  function LastValue<V>(rds: seq<Read<V>>, v: Clock): Option<V>
  {
    if rds == [] then None
    else
      var last := rds[|rds| - 1];
      if Equiv(last.version, v) then Some(last.value) else LastValue(rds[..|rds| - 1], v)
  }

  /** A replica is listed as stale exactly when one of its reads differs from `v`. */
  lemma {:induction false} StaleSpec<V>(rds: seq<Read<V>>, v: Clock)
    ensures forall x :: x in Stale(rds, v) <==>
      exists i :: 0 <= i < |rds| && rds[i].node == x && !Equiv(rds[i].version, v)
  {
    if rds != [] {
      var init := rds[..|rds| - 1];
      var last := rds[|rds| - 1];
      StaleSpec(init, v);
      assert Stale(rds, v) == Stale(init, v) + (if Equiv(last.version, v) then [] else [last.node]);
      forall x ensures x in Stale(rds, v) <==>
        exists i :: 0 <= i < |rds| && rds[i].node == x && !Equiv(rds[i].version, v)
      {
        if exists i :: 0 <= i < |rds| && rds[i].node == x && !Equiv(rds[i].version, v) {
          var i :| 0 <= i < |rds| && rds[i].node == x && !Equiv(rds[i].version, v);
          if i < |rds| - 1 {
            assert init[i] == rds[i];
          }
        }
        if x in Stale(init, v) {
          var i :| 0 <= i < |init| && init[i].node == x && !Equiv(init[i].version, v);
          assert rds[i] == init[i];
        }
        if x in Stale(rds, v) && x !in Stale(init, v) {
          assert x == last.node && !Equiv(last.version, v);
        }
      }
    }
  }

  /** Some value is found whenever a read has the chosen version, and it is that read's value. */
  lemma {:induction false} LastValueSpec<V>(rds: seq<Read<V>>, v: Clock)
    ensures LastValue(rds, v).Some? <==> exists i :: 0 <= i < |rds| && Equiv(rds[i].version, v)
    ensures LastValue(rds, v).Some? ==>
      exists i :: 0 <= i < |rds| && Equiv(rds[i].version, v) && rds[i].value == LastValue(rds, v).value &&
        forall j :: i < j < |rds| ==> !Equiv(rds[j].version, v)
  {
    if rds != [] {
      var init := rds[..|rds| - 1];
      var last := rds[|rds| - 1];
      if !Equiv(last.version, v) {
        LastValueSpec(init, v);
        assert LastValue(rds, v) == LastValue(init, v);
        if exists i :: 0 <= i < |rds| && Equiv(rds[i].version, v) {
          var i :| 0 <= i < |rds| && Equiv(rds[i].version, v);
          assert init[i] == rds[i];
        }
        if LastValue(init, v).Some? {
          var i :| 0 <= i < |init| && Equiv(init[i].version, v) && init[i].value == LastValue(init, v).value &&
            forall j :: i < j < |init| ==> !Equiv(init[j].version, v);
          assert rds[i] == init[i];
          forall j | i < j < |rds| ensures !Equiv(rds[j].version, v) {
            if j < |rds| - 1 {
              assert rds[j] == init[j];
            }
          }
        }
      } else {
        var i := |rds| - 1;
        assert LastValue(rds, v) == Some(last.value);
        assert Equiv(rds[i].version, v) && rds[i].value == LastValue(rds, v).value;
      }
    }
  }

  /**
   * `QuorumManager`: the replication factor and the two quorum sizes. The
   * quorum sizes can be changed after creation.
   */
  class QuorumManager {
    const nodeId: int
    const nReplicas: int
    var readQuorum: int
    var writeQuorum: int
    const readRepair: bool

    /** The quorum sizes pass `_validate_quorum`. */
    ghost predicate Valid()
      reads this
    {
      CheckQuorum(readQuorum, writeQuorum, nReplicas).None?
    }

    /** Sets the fields; validation is the job of `New`. */
    constructor (nodeId: int, nReplicas: int, readQuorum: int, writeQuorum: int, readRepair: bool)
      ensures this.nodeId == nodeId && this.nReplicas == nReplicas && this.readRepair == readRepair
      ensures this.readQuorum == readQuorum && this.writeQuorum == writeQuorum
    {
      this.nodeId := nodeId;
      this.nReplicas := nReplicas;
      this.readQuorum := readQuorum;
      this.writeQuorum := writeQuorum;
      this.readRepair := readRepair;
    }

    /**
     * `__init__`: stores the settings, then validates them; invalid settings
     * raise, and no manager is made.
     */
    static method New(nodeId: int, nReplicas: int, readQuorum: int, writeQuorum: int, readRepair: bool)
      returns (m: QuorumManager?, err: Option<QuorumError>)
      ensures err == CheckQuorum(readQuorum, writeQuorum, nReplicas)
      ensures err.None? <==> m != null
      ensures m != null ==>
        fresh(m) && m.Valid() && m.nodeId == nodeId && m.nReplicas == nReplicas &&
        m.readQuorum == readQuorum && m.writeQuorum == writeQuorum && m.readRepair == readRepair
    {
      m := new QuorumManager(nodeId, nReplicas, readQuorum, writeQuorum, readRepair);
      err := CheckQuorum(readQuorum, writeQuorum, nReplicas);
      if err.Some? {
        m := null;
      }
    }

    /** `get_consistency_level`. */
    function GetConsistencyLevel(): (l: Config.Level)
      reads this
      ensures l == Config.Strong <==> readQuorum + writeQuorum > nReplicas
      ensures l == Config.Moderate <==> readQuorum + writeQuorum == nReplicas
      ensures l == Config.Eventual <==> readQuorum + writeQuorum < nReplicas
    {
      Config.Classify(readQuorum, writeQuorum, nReplicas)
    }

    /**
     * `update_quorum_config` as written: the new sizes are stored first and
     * validated afterwards, so a rejected update leaves them in place and
     * the manager invalid.
     */
    method UpdateQuorumConfig(r: Option<int>, w: Option<int>) returns (err: Option<QuorumError>)
      modifies this
      ensures readQuorum == r.GetOr(old(readQuorum)) && writeQuorum == w.GetOr(old(writeQuorum))
      ensures err == CheckQuorum(readQuorum, writeQuorum, nReplicas)
      ensures err.Some? <==> !Valid()
    {
      if r.Some? {
        readQuorum := r.value;
      }
      if w.Some? {
        writeQuorum := w.value;
      }
      err := CheckQuorum(readQuorum, writeQuorum, nReplicas);
    }

    /**
     * `update_quorum_config` with the check done before anything is stored:
     * a rejected update changes nothing, so a valid manager stays valid.
     */
    method UpdateQuorumConfigChecked(r: Option<int>, w: Option<int>) returns (err: Option<QuorumError>)
      modifies this
      ensures err == CheckQuorum(r.GetOr(old(readQuorum)), w.GetOr(old(writeQuorum)), nReplicas)
      ensures err.None? ==> readQuorum == r.GetOr(old(readQuorum)) && writeQuorum == w.GetOr(old(writeQuorum))
      ensures err.Some? ==> readQuorum == old(readQuorum) && writeQuorum == old(writeQuorum)
      ensures old(Valid()) ==> Valid()
    {
      var newR, newW := r.GetOr(readQuorum), w.GetOr(writeQuorum);
      err := CheckQuorum(newR, newW, nReplicas);
      if err.None? {
        readQuorum, writeQuorum := newR, newW;
      }
    }

    /**
     * `quorum_put`: sends the write to every replica and succeeds with at
     * least W acknowledgements. No replicas, or no answer within the
     * timeout, fails. The version is handed back unchanged.
     */
    method QuorumPut<V>(key: string, value: V, version: Clock, replicas: seq<NodeInfo>, primary: Option<int>,
                        replies: seq<Rpc<PutReply>>, timedOut: bool)
      returns (success: bool, v: Clock, sent: seq<(NodeInfo, PutReplicaMsg<V>)>)
      ensures v == version
      ensures success <==> replicas != [] && !timedOut && |Acknowledged(replicas, replies)| >= writeQuorum
      ensures replicas == [] ==> sent == []
      ensures replicas != [] ==>
        |sent| == |replicas| &&
        forall i :: 0 <= i < |sent| ==> sent[i] == (replicas[i], PutReplicaRequest(nodeId, key, value, version, primary))
    {
      if |replicas| == 0 {
        return false, version, [];
      }
      var acknowledged;
      sent, acknowledged := ReplicatePut(nodeId, key, value, version, replicas, primary, replies);
      if timedOut {
        return false, version, sent;
      }
      success := |acknowledged| >= writeQuorum;
      v := version;
    }

    /**
     * `quorum_get` as written: reads every replica, needs at least R reads,
     * answers with `get_latest_version` of the versions read, falling back to
     * the first version read when that reports a conflict (which it also does
     * on two equal newest versions), and lists the replicas holding another
     * version; with read repair on, those are sent the answer. With no read
     * at all (possible only when R <= 0) picking the first version raises.
     */
    method QuorumGet<V>(key: string, replicas: seq<NodeInfo>, primary: Option<int>,
                        replies: seq<Rpc<GetReply<V>>>, timedOut: bool)
      returns (out: GetOutcome<V>)
      ensures replicas == [] ==> out == NoReplicas
      ensures replicas != [] && timedOut ==> out == TimedOut
      ensures replicas != [] && !timedOut ==> var rds := Reads(replicas, replies);
        && (|rds| < readQuorum ==> out == TooFewReads(|rds|))
        && (|rds| >= readQuorum && rds == [] ==> out == Crashed)
        && (|rds| >= readQuorum && rds != [] ==>
              && Answered(key, rds, PickAsWritten(Versions(rds)), out)
              && (Latest(Versions(rds)).Some? ==>
                    forall i :: 0 <= i < |rds| && rds[i].version != out.version ==> Before(rds[i].version, out.version)))
    {
      if |replicas| == 0 {
        return NoReplicas;
      }
      var sent, rds := ReplicateGet(key, replicas, primary, replies);
      if timedOut {
        return TimedOut;
      }
      if |rds| < readQuorum {
        return TooFewReads(|rds|);
      }
      if |rds| == 0 {
        return Crashed;
      }
      var versions := Versions(rds);
      var latest := PickAsWritten(versions);
      out := Respond(key, rds, latest);
      if Latest(versions).Some? {
        PickAsWrittenIsAfter(rds);
      }
    }

    /**
     * `quorum_get` with the repaired latest-version rule: when the versions
     * read do not conflict the answer is equal to or after every one of
     * them, so read repair never writes an older version over a newer one.
     */
    method QuorumGetChecked<V>(key: string, replicas: seq<NodeInfo>, primary: Option<int>,
                               replies: seq<Rpc<GetReply<V>>>, timedOut: bool)
      returns (out: GetOutcome<V>)
      ensures replicas == [] ==> out == NoReplicas
      ensures replicas != [] && timedOut ==> out == TimedOut
      ensures replicas != [] && !timedOut ==> var rds := Reads(replicas, replies);
        && (|rds| < readQuorum ==> out == TooFewReads(|rds|))
        && (|rds| >= readQuorum && rds == [] ==> out == Crashed)
        && (|rds| >= readQuorum && rds != [] ==>
              && Answered(key, rds, Pick(Versions(rds)), out)
              && (LatestAgreed(Versions(rds)).Some? ==>
                    forall i :: 0 <= i < |rds| ==> Dominates(out.version, rds[i].version)))
    {
      if |replicas| == 0 {
        return NoReplicas;
      }
      var sent, rds := ReplicateGet(key, replicas, primary, replies);
      if timedOut {
        return TimedOut;
      }
      if |rds| < readQuorum {
        return TooFewReads(|rds|);
      }
      if |rds| == 0 {
        return Crashed;
      }
      var versions := Versions(rds);
      var latest := Pick(versions);
      out := Respond(key, rds, latest);
      if LatestAgreed(versions).Some? {
        PickIsNewestRead(rds);
      }
    }

    /** `out` answers a read of `rds` with version `v`: its value, the stale replicas and the repairs. */
    ghost predicate Answered<V>(key: string, rds: seq<Read<V>>, v: Clock, out: GetOutcome<V>)
      reads this
    {
      && out.Answer?
      && out.version == v
      && LastValue(rds, v) == Some(out.value)
      && out.stale == Stale(rds, v)
      && out.repairs == if readRepair && out.stale != [] then RepairRequests(nodeId, key, out.value, v, out.stale) else []
    }

    /** The end of `quorum_get` once the version `latest` is chosen from the reads. */
    method Respond<V>(key: string, rds: seq<Read<V>>, latest: Clock) returns (out: GetOutcome<V>)
      requires latest in Versions(rds)
      ensures Answered(key, rds, latest, out)
    {
      var versions := Versions(rds);
      var latestValue, stale := ScanReads(rds, latest);
      assert latestValue.Some? by {
        var k :| 0 <= k < |versions| && versions[k] == latest;
        assert Equiv(rds[k].version, latest);
        LastValueSpec(rds, latest);
      }
      var repairs := [];
      if readRepair && stale != [] {
        repairs := RepairRequests(nodeId, key, latestValue.value, latest, stale);
      }
      return Answer(latestValue.value, latest, stale, repairs);
    }
  }

  /**
   * When the versions read do not conflict, every replica listed as stale
   * holds a version strictly older than the answer, and every other
   * replica read holds the answer's version.
   */
  lemma StaleReplicasAreBehind<V>(rds: seq<Read<V>>)
    requires rds != [] && LatestAgreed(Versions(rds)).Some?
    ensures forall i :: 0 <= i < |rds| ==>
      (rds[i].node in Stale(rds, Pick(Versions(rds))) || Equiv(rds[i].version, Pick(Versions(rds))))
    ensures forall i :: 0 <= i < |rds| && !Equiv(rds[i].version, Pick(Versions(rds))) ==>
      Before(rds[i].version, Pick(Versions(rds)))
  {
    var vs := Versions(rds);
    var v := Pick(vs);
    PickIsNewest(vs);
    StaleSpec(rds, v);
    forall i | 0 <= i < |rds| && !Equiv(rds[i].version, v) ensures Before(rds[i].version, v) {
      assert rds[i].version == vs[i] && vs[i] in vs;
      DominatesIffAfterOrEqual(v, rds[i].version);
      if Equiv(v, rds[i].version) {
        EquivAt(v, rds[i].version);
        EquivAt(rds[i].version, v);
      }
    }
  }
}
