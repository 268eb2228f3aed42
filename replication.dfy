// N-way replication (consistency/replication.py): the PUT_REPLICA and
// GET_REPLICA requests a coordinator sends, how it reads the replies, and
// which replicas it picks. The replies are parameters: one per replica, in
// the order the replicas were given.

module Replication {
  import opened Base
  import opened VectorClocks
  import opened Routing

  /** The body of a PUT_REPLICA request. */
  datatype PutReplicaMsg<V> = PutReplicaMsg(key: string, value: V, version: map<string, int>, primary: int)

  /** The body of a GET_REPLICA request; the primary hint is sent only when given. */
  datatype GetReplicaMsg = GetReplicaMsg(key: string, primary: Option<int>)

  /** A reply to PUT_REPLICA: whether it has that reply type, and its `status` field. */
  datatype PutReply = PutReply(isPutReplicaReply: bool, status: Option<string>)

  /** A reply to GET_REPLICA: whether it has that reply type, its `value` and its `version` dict. */
  datatype GetReply<V> = GetReply(isGetReplicaReply: bool, value: Option<V>, version: Option<map<string, int>>)

  /** One successful replica read. */
  datatype Read<V> = Read(node: NodeInfo, value: V, version: Clock)

  /**
   * The PUT_REPLICA body `_send_put_replica` builds: the version as a dict
   * and the primary defaulting to the sender. The receiver gets the very
   * same version back.
   */
  function PutReplicaRequest<V>(self: int, key: string, value: V, version: Clock, primary: Option<int>): (m: PutReplicaMsg<V>)
    ensures m.key == key && m.value == value
    ensures m.primary == if primary.Some? then primary.value else self
    ensures FromDict(m.version) == Some(version)
  {
    DictRoundTrip(version);
    PutReplicaMsg(key, value, ToDict(version), primary.GetOr(self))
  }

  /**
   * `_send_put_replica`'s answer: true only for a PUT_REPLICA_REPLY whose
   * status is "ok"; no reply, another reply type or an error gives false.
   */
  predicate PutAcknowledged(reply: Rpc<PutReply>)
  {
    reply.Reply? && reply.body.isPutReplicaReply && reply.body.status == Some("ok")
  }

  /**
   * `_send_get_replica`'s answer: the value and version of a
   * GET_REPLICA_REPLY that carries a value and a non-empty version dict
   * that parses; `None` otherwise (a dict that does not parse raises, and
   * the error is caught).
   */
  function GetReplicaResult<V>(reply: Rpc<GetReply<V>>): (r: Option<(V, Clock)>)
    ensures r.Some? <==>
      reply.Reply? && reply.body.isGetReplicaReply && reply.body.value.Some? &&
      reply.body.version.Some? && |reply.body.version.value| > 0 && FromDict(reply.body.version.value).Some?
    ensures r.Some? ==> r.value.0 == reply.body.value.value && FromDict(reply.body.version.value) == Some(r.value.1)
  {
    if reply.Reply? && reply.body.isGetReplicaReply && reply.body.value.Some? &&
       reply.body.version.Some? && |reply.body.version.value| > 0
    then
      match FromDict(reply.body.version.value)
      case Some(c) => Some((reply.body.value.value, c))
      case None => None
    else None
  }

  // ---------------------------------------------------------------------
  // replicate_put

  /** The replicas among the first `k` whose reply acknowledges the write, in order. */
  function AckedUpTo(replicas: seq<NodeInfo>, replies: seq<Rpc<PutReply>>, k: nat): seq<NodeInfo>
    requires k <= |replicas| && k <= |replies|
  {
    if k == 0 then []
    else AckedUpTo(replicas, replies, k - 1) + (if PutAcknowledged(replies[k - 1]) then [replicas[k - 1]] else [])
  }

  /** The `acknowledged` list of `replicate_put` (the pairing of `zip` stops at the shorter list). */
  function Acknowledged(replicas: seq<NodeInfo>, replies: seq<Rpc<PutReply>>): seq<NodeInfo>
  {
    AckedUpTo(replicas, replies, Min(|replicas|, |replies|))
  }

  /** `a` is `b` with some elements left out, the rest kept in order. */
  ghost predicate IsSubseq<T>(a: seq<T>, b: seq<T>)
  {
    exists ix: seq<int> :: |ix| == |a| &&
      (forall t :: 0 <= t < |ix| ==> 0 <= ix[t] < |b| && a[t] == b[ix[t]]) &&
      (forall s, t :: 0 <= s < t < |ix| ==> ix[s] < ix[t])
  }

  /**
   * The first `k` acknowledged replicas: exactly those whose reply said
   * "ok", each at most once per position, and in the order given.
   */
  lemma {:induction false} AckedUpToSpec(replicas: seq<NodeInfo>, replies: seq<Rpc<PutReply>>, k: nat) returns (ix: seq<int>)
    requires k <= |replicas| && k <= |replies|
    ensures |ix| == |AckedUpTo(replicas, replies, k)|
    ensures forall t :: 0 <= t < |ix| ==>
      0 <= ix[t] < k && AckedUpTo(replicas, replies, k)[t] == replicas[ix[t]] && PutAcknowledged(replies[ix[t]])
    ensures forall s, t :: 0 <= s < t < |ix| ==> ix[s] < ix[t]
    ensures forall i :: 0 <= i < k && PutAcknowledged(replies[i]) ==> i in ix
  {
    if k == 0 {
      ix := [];
    } else {
      var prev := AckedUpToSpec(replicas, replies, k - 1);
      var before := AckedUpTo(replicas, replies, k - 1);
      var acked := AckedUpTo(replicas, replies, k);
      if PutAcknowledged(replies[k - 1]) {
        ix := prev + [k - 1];
        assert acked == before + [replicas[k - 1]];
        forall t | 0 <= t < |ix|
          ensures 0 <= ix[t] < k && acked[t] == replicas[ix[t]] && PutAcknowledged(replies[ix[t]])
        {
          if t < |prev| {
            assert acked[t] == before[t] && ix[t] == prev[t];
          }
        }
      } else {
        ix := prev;
        assert acked == before;
      }
    }
  }

  /**
   * `replicate_put` acknowledges exactly the replicas whose reply said "ok",
   * keeps them in the order given and never lists more than were asked.
   */
  lemma AcknowledgedSpec(replicas: seq<NodeInfo>, replies: seq<Rpc<PutReply>>)
    ensures |Acknowledged(replicas, replies)| <= Min(|replicas|, |replies|)
    ensures IsSubseq(Acknowledged(replicas, replies), replicas)
    ensures forall x :: x in Acknowledged(replicas, replies) <==>
      exists i :: 0 <= i < |replicas| && i < |replies| && replicas[i] == x && PutAcknowledged(replies[i])
  {
    var k := Min(|replicas|, |replies|);
    var a := Acknowledged(replicas, replies);
    var ix := AckedUpToSpec(replicas, replies, k);
    assert |a| <= k by {
      IndicesBound(ix, k);
    }
    forall x ensures x in a <==> exists i :: 0 <= i < |replicas| && i < |replies| && replicas[i] == x && PutAcknowledged(replies[i]) {
      if x in a {
        var t :| 0 <= t < |a| && a[t] == x;
        assert replicas[ix[t]] == x;
      }
      if exists i :: 0 <= i < |replicas| && i < |replies| && replicas[i] == x && PutAcknowledged(replies[i]) {
        var i :| 0 <= i < |replicas| && i < |replies| && replicas[i] == x && PutAcknowledged(replies[i]);
        var t :| 0 <= t < |ix| && ix[t] == i;
        assert a[t] == x;
      }
    }
  }

  /** Strictly increasing indices below `k` are at most `k` in number. */
  lemma {:induction false} IndicesBound(ix: seq<int>, k: int)
    requires 0 <= k
    requires forall t :: 0 <= t < |ix| ==> 0 <= ix[t] < k
    requires forall s, t :: 0 <= s < t < |ix| ==> ix[s] < ix[t]
    ensures |ix| <= k
  {
    if |ix| > 0 {
      var init, last := ix[..|ix| - 1], ix[|ix| - 1];
      assert forall t :: 0 <= t < |init| ==> init[t] == ix[t] && ix[t] < last;
      IndicesBound(init, last);
      assert |ix| == |init| + 1;
    }
  }

  /**
   * `replicate_put`: one PUT_REPLICA request per replica, all carrying the
   * same key, value, version and primary, then the replicas that said "ok".
   */
  method ReplicatePut<V>(self: int, key: string, value: V, version: Clock, replicas: seq<NodeInfo>,
                         primary: Option<int>, replies: seq<Rpc<PutReply>>)
    returns (sent: seq<(NodeInfo, PutReplicaMsg<V>)>, acknowledged: seq<NodeInfo>)
    ensures |sent| == |replicas|
    ensures forall i :: 0 <= i < |sent| ==>
      sent[i] == (replicas[i], PutReplicaRequest(self, key, value, version, primary))
    ensures acknowledged == Acknowledged(replicas, replies)
  {
    if |replicas| == 0 {
      return [], [];
    }
    sent := [];
    var i := 0;
    while i < |replicas|
      invariant 0 <= i <= |replicas| && |sent| == i
      invariant forall j :: 0 <= j < i ==> sent[j] == (replicas[j], PutReplicaRequest(self, key, value, version, primary))
    {
      sent := sent + [(replicas[i], PutReplicaRequest(self, key, value, version, primary))];
      i := i + 1;
    }
    acknowledged := [];
    var k := Min(|replicas|, |replies|);
    i := 0;
    while i < k
      invariant 0 <= i <= k
      invariant acknowledged == AckedUpTo(replicas, replies, i)
    {
      if PutAcknowledged(replies[i]) {
        acknowledged := acknowledged + [replicas[i]];
      }
      i := i + 1;
    }
  }

  // ---------------------------------------------------------------------
  // replicate_get

  /** What `_send_get_replica` gives back for each reply. */
  function Results<V>(replies: seq<Rpc<GetReply<V>>>): (rs: seq<Option<(V, Clock)>>)
    ensures |rs| == |replies|
    ensures forall i :: 0 <= i < |replies| ==> rs[i] == GetReplicaResult(replies[i])
  {
    seq(|replies|, i requires 0 <= i < |replies| => GetReplicaResult(replies[i]))
  }

  /** The reads among the first `k` replicas, in order. */
  function ReadsUpTo<V>(replicas: seq<NodeInfo>, results: seq<Option<(V, Clock)>>, k: nat): seq<Read<V>>
    requires k <= |replicas| && k <= |results|
  {
    if k == 0 then []
    else
      var r := results[k - 1];
      ReadsUpTo(replicas, results, k - 1) + (if r.Some? then [Read(replicas[k - 1], r.value.0, r.value.1)] else [])
  }

  /** The `reads` list of `replicate_get`. */
  function Reads<V>(replicas: seq<NodeInfo>, replies: seq<Rpc<GetReply<V>>>): seq<Read<V>>
  {
    ReadsUpTo(replicas, Results(replies), Min(|replicas|, |replies|))
  }

  /**
   * Every read of `replicate_get` is the parsed reply of the replica it
   * names, at increasing positions, and every replica with a usable reply
   * contributes one.
   */
  lemma {:induction false} ReadsUpToSpec<V>(replicas: seq<NodeInfo>, results: seq<Option<(V, Clock)>>, k: nat) returns (ix: seq<int>)
    requires k <= |replicas| && k <= |results|
    ensures var rs := ReadsUpTo(replicas, results, k);
      && |ix| == |rs|
      && (forall t :: 0 <= t < |ix| ==>
            0 <= ix[t] < k && rs[t].node == replicas[ix[t]] &&
            results[ix[t]] == Some((rs[t].value, rs[t].version)))
      && (forall s, t :: 0 <= s < t < |ix| ==> ix[s] < ix[t])
      && (forall i :: 0 <= i < k && results[i].Some? ==> i in ix)
  {
    if k == 0 {
      ix := [];
    } else {
      var prev := ReadsUpToSpec(replicas, results, k - 1);
      var before := ReadsUpTo(replicas, results, k - 1);
      var rs := ReadsUpTo(replicas, results, k);
      var r := results[k - 1];
      if r.Some? {
        ix := prev + [k - 1];
        assert rs == before + [Read(replicas[k - 1], r.value.0, r.value.1)];
        forall t | 0 <= t < |ix|
          ensures 0 <= ix[t] < k && rs[t].node == replicas[ix[t]] &&
            results[ix[t]] == Some((rs[t].value, rs[t].version))
        {
          if t < |prev| {
            assert rs[t] == before[t] && ix[t] == prev[t];
          }
        }
      } else {
        ix := prev;
        assert rs == before;
      }
    }
  }

  /**
   * `replicate_get` returns one read per replica whose reply was usable,
   * carrying that replica's parsed value and version, in the order given.
   */
  lemma ReadsSpec<V>(replicas: seq<NodeInfo>, replies: seq<Rpc<GetReply<V>>>)
    ensures |Reads(replicas, replies)| <= Min(|replicas|, |replies|)
    ensures forall t :: 0 <= t < |Reads(replicas, replies)| ==>
      exists i :: 0 <= i < |replicas| && i < |replies| && replicas[i] == Reads(replicas, replies)[t].node &&
        Results(replies)[i] == Some((Reads(replicas, replies)[t].value, Reads(replicas, replies)[t].version))
    ensures forall i :: 0 <= i < |replicas| && i < |replies| && Results(replies)[i].Some? ==>
      Read(replicas[i], Results(replies)[i].value.0, Results(replies)[i].value.1) in Reads(replicas, replies)
  {
    ReadsOfResults(replicas, Results(replies), Min(|replicas|, |replies|));
  }

  /** `ReadsSpec` for any list of parsed results. */
  lemma ReadsOfResults<V>(replicas: seq<NodeInfo>, results: seq<Option<(V, Clock)>>, k: nat)
    requires k <= |replicas| && k <= |results|
    ensures |ReadsUpTo(replicas, results, k)| <= k
    ensures forall t :: 0 <= t < |ReadsUpTo(replicas, results, k)| ==>
      exists i :: 0 <= i < k && replicas[i] == ReadsUpTo(replicas, results, k)[t].node &&
        results[i] == Some((ReadsUpTo(replicas, results, k)[t].value, ReadsUpTo(replicas, results, k)[t].version))
    ensures forall i :: 0 <= i < k && results[i].Some? ==>
      Read(replicas[i], results[i].value.0, results[i].value.1) in ReadsUpTo(replicas, results, k)
  {
    var rs := ReadsUpTo(replicas, results, k);
    var ix := ReadsUpToSpec(replicas, results, k);
    IndicesBound(ix, k);
    forall t | 0 <= t < |rs|
      ensures exists i :: 0 <= i < k && replicas[i] == rs[t].node && results[i] == Some((rs[t].value, rs[t].version))
    {
      var i := ix[t];
      assert replicas[i] == rs[t].node && results[i] == Some((rs[t].value, rs[t].version));
    }
    forall i | 0 <= i < k && results[i].Some?
      ensures Read(replicas[i], results[i].value.0, results[i].value.1) in rs
    {
      var t :| 0 <= t < |ix| && ix[t] == i;
      assert rs[t] == Read(replicas[i], results[i].value.0, results[i].value.1);
    }
  }

  /**
   * `replicate_get`: one GET_REPLICA request per replica (with the primary
   * hint when given), then one read per replica whose reply was usable.
   */
  method ReplicateGet<V>(key: string, replicas: seq<NodeInfo>, primary: Option<int>, replies: seq<Rpc<GetReply<V>>>)
    returns (sent: seq<(NodeInfo, GetReplicaMsg)>, got: seq<Read<V>>)
    ensures |sent| == |replicas|
    ensures forall i :: 0 <= i < |sent| ==> sent[i] == (replicas[i], GetReplicaMsg(key, primary))
    ensures got == Reads(replicas, replies)
  {
    if |replicas| == 0 {
      return [], [];
    }
    sent := [];
    var i := 0;
    while i < |replicas|
      invariant 0 <= i <= |replicas| && |sent| == i
      invariant forall j :: 0 <= j < i ==> sent[j] == (replicas[j], GetReplicaMsg(key, primary))
    {
      sent := sent + [(replicas[i], GetReplicaMsg(key, primary))];
      i := i + 1;
    }
    got := CollectReads(replicas, Results(replies), Min(|replicas|, |replies|));
  }

  /** The read loop of `replicate_get` over the parsed replies. */
  method CollectReads<V>(replicas: seq<NodeInfo>, results: seq<Option<(V, Clock)>>, k: nat)
    returns (got: seq<Read<V>>)
    requires k <= |replicas| && k <= |results|
    ensures got == ReadsUpTo(replicas, results, k)
  {
    got := [];
    var i := 0;
    while i < k
      invariant 0 <= i <= k
      invariant got == ReadsUpTo(replicas, results, i)
    {
      var result := results[i];
      if result.Some? {
        got := got + [Read(replicas[i], result.value.0, result.value.1)];
      }
      i := i + 1;
    }
  }

  // ---------------------------------------------------------------------
  // repair_replicas and select_replicas

  /**
   * `repair_replicas`: one PUT_REPLICA per stale replica with the latest
   * value and version; the primary is the sender itself. Nothing is sent
   * when there is no stale replica.
   */
  function RepairRequests<V>(self: int, key: string, value: V, version: Clock, stale: seq<NodeInfo>): (r: seq<(NodeInfo, PutReplicaMsg<V>)>)
    ensures |r| == |stale|
    ensures forall i :: 0 <= i < |r| ==>
      r[i].0 == stale[i] && r[i].1.key == key && r[i].1.value == value && r[i].1.primary == self && FromDict(r[i].1.version) == Some(version)
  {
    var r := seq(|stale|, i requires 0 <= i < |stale| => (stale[i], PutReplicaRequest(self, key, value, version, None)));
    assert forall i :: 0 <= i < |r| ==> r[i].1 == PutReplicaRequest(self, key, value, version, None);
    r
  }

  /**
   * `select_replicas`: the first `n` successors (the configured number when
   * `n` is not given); Python's slice makes a negative `n` drop that many
   * from the end instead.
   */
  function SelectReplicas(successors: seq<NodeInfo>, n: Option<int>, nReplicas: int): (r: seq<NodeInfo>)
    ensures |r| <= |successors| && r == successors[..|r|]
    ensures var k := n.GetOr(nReplicas);
      |r| == if k >= 0 then Min(k, |successors|) else Max(|successors| + k, 0)
  {
    Take(successors, Min(n.GetOr(nReplicas), |successors|))
  }
}
