// The request handlers of a node's server (main.py) that decide what the
// store does: a client PUT with its sloppy-quorum fallback, the replica
// writes and reads other nodes send, the hand-over of keys to a joining
// node and of hinted records to a recovering one, and the start-up check
// of the quorum sizes.

module Coordinator {
  import opened Base
  import opened VectorClocks
  import opened Routing
  import opened Storage
  import opened Replication
  import Quorum
  import Config
  import Node

  // ---------------------------------------------------------------------
  // PUT: the replicas a write is copied to

  /** A replica candidate that is neither this node nor the key's primary. */
  predicate Eligible(x: NodeInfo, self: int, primary: int)
  {
    x.id != self && x.id != primary
  }

  /** The eligible candidates, in the order given. */
  function EligibleOnly(all: seq<NodeInfo>, self: int, primary: int): (r: seq<NodeInfo>)
    ensures |r| <= |all|
    ensures forall x :: x in r ==> x in all && Eligible(x, self, primary)
    ensures forall x :: x in all && Eligible(x, self, primary) ==> x in r
  {
    if all == [] then []
    else
      var last := all[|all| - 1];
      assert all == all[..|all| - 1] + [last];
      EligibleOnly(all[..|all| - 1], self, primary) + (if Eligible(last, self, primary) then [last] else [])
  }

  /** Filtering a prefix of the candidates gives a prefix of the filtered list. */
  lemma {:induction false} EligiblePrefix(all: seq<NodeInfo>, self: int, primary: int, i: nat)
    requires i <= |all|
    ensures EligibleOnly(all[..i], self, primary) <= EligibleOnly(all, self, primary)
    decreases |all| - i
  {
    if i == |all| {
      assert all[..i] == all;
    } else {
      EligiblePrefix(all, self, primary, i + 1);
      assert all[..i + 1][..i] == all[..i];
    }
  }

  /**
   * The replicas of a PUT: the eligible candidates in ring order, at most
   * N - 1 of them. The count is checked only after a candidate has been
   * looked at, so with N <= 1 the first candidate is still taken when it
   * is eligible.
   */
  function Targets(all: seq<NodeInfo>, self: int, primary: int, n: int): seq<NodeInfo>
  {
    if n - 1 >= 1 then Take(EligibleOnly(all, self, primary), n - 1)
    else if all != [] && Eligible(all[0], self, primary) then [all[0]]
    else []
  }

  /**
   * The targets are candidates other than this node and the primary, in
   * ring order, at most N - 1 of them (one when N <= 1); fewer than N - 1
   * only when every eligible candidate is among them.
   */
  lemma TargetsShape(all: seq<NodeInfo>, self: int, primary: int, n: int)
    ensures forall x :: x in Targets(all, self, primary, n) ==> x in all && Eligible(x, self, primary)
    ensures |Targets(all, self, primary, n)| <= Max(n - 1, 1)
    ensures n >= 2 ==> Targets(all, self, primary, n) <= EligibleOnly(all, self, primary)
    ensures (n >= 2 && |Targets(all, self, primary, n)| < n - 1) ==>
      forall x :: x in all && Eligible(x, self, primary) ==> x in Targets(all, self, primary, n)
  {
    if n >= 2 {
      var e := EligibleOnly(all, self, primary);
      if |Targets(all, self, primary, n)| < n - 1 {
        assert Targets(all, self, primary, n) == e;
      }
    }
  }

  /** Filtering one more candidate appends it exactly when it is eligible. */
  lemma EligibleSnoc(all: seq<NodeInfo>, self: int, primary: int, i: nat)
    requires i < |all|
    ensures EligibleOnly(all[..i + 1], self, primary) ==
      EligibleOnly(all[..i], self, primary) + (if Eligible(all[i], self, primary) then [all[i]] else [])
  {
    assert all[..i + 1][..i] == all[..i];
  }

  /** Once N - 1 eligible candidates are found, they are the targets. */
  lemma TargetsFound(all: seq<NodeInfo>, self: int, primary: int, n: int, i: nat)
    requires i <= |all| && n - 1 >= 1
    requires |EligibleOnly(all[..i], self, primary)| == n - 1
    ensures Targets(all, self, primary, n) == EligibleOnly(all[..i], self, primary)
  {
    EligiblePrefix(all, self, primary, i);
  }

  /**
   * The filtering loop of `handle_put`. The count is checked after each
   * candidate, so with N <= 1 the loop ends after the first one.
   */
  method SelectTargets(all: seq<NodeInfo>, self: int, primary: int, n: int) returns (r: seq<NodeInfo>)
    ensures r == Targets(all, self, primary, n)
  {
    if n - 1 < 1 {
      return if all != [] && Eligible(all[0], self, primary) then [all[0]] else [];
    }
    r := [];
    for i := 0 to |all|
      invariant r == EligibleOnly(all[..i], self, primary) && |r| < n - 1
    {
      EligibleSnoc(all, self, primary, i);
      if Eligible(all[i], self, primary) {
        r := r + [all[i]];
      }
      if |r| >= n - 1 {
        TargetsFound(all, self, primary, n, i + 1);
        return;
      }
    }
    TargetsAll(all, self, primary, n);
  }

  /** With fewer than N - 1 eligible candidates, all of them are the targets. */
  lemma TargetsAll(all: seq<NodeInfo>, self: int, primary: int, n: int)
    requires n - 1 >= 1 && |EligibleOnly(all[..|all|], self, primary)| < n - 1
    ensures Targets(all, self, primary, n) == EligibleOnly(all[..|all|], self, primary)
  {
    assert all[..|all|] == all;
  }

  /** The replicas with the fallback: the first N - 1 of the successor list when none was found. */
  function ReplicasFor(all: seq<NodeInfo>, self: int, primary: int, n: int,
                       successorList: seq<NodeInfo>, nReplicas: int): (r: seq<NodeInfo>)
    ensures Targets(all, self, primary, n) != [] ==> r == Targets(all, self, primary, n)
    ensures Targets(all, self, primary, n) == [] && successorList != [] ==>
      r == Take(Take(successorList, nReplicas), n - 1)
  {
    var t := Targets(all, self, primary, n);
    if t == [] && successorList != [] then Take(Take(successorList, nReplicas), n - 1) else t
  }

  /** Remote acknowledgements a PUT needs: the local store counts as one of the W. */
  function NeededRemoteAcks(w: int): (k: int)
    ensures k >= 0
    ensures w >= 1 ==> k + 1 == w
    ensures w < 1 ==> k == 0
  {
    Max(0, w - 1)
  }

  // ---------------------------------------------------------------------
  // PUT

  /** What `handle_put` answers: the primary's own reply, or the outcome here. */
  datatype PutResult = Forwarded | Stored(ok: bool, version: Clock)

  /**
   * `handle_put`. The key's primary (`responsible`) is found by querying the
   * ring, which is left to the caller; `forwardAnswered` says whether the
   * primary answered the forwarded request. The replica views come from
   * the node itself; `replies` and `timedOut` are what the replica writes
   * brought back. A write this node is primary for is stored as primary;
   * one whose primary did not answer is stored as a hinted backup for it
   * (sloppy quorum). It succeeds when the remote acknowledgements reach
   * W - 1, and the write quorum is back at its old value afterwards.
   */
  method HandlePut<V>(node: Node.ChordNode<V>, qm: Quorum.QuorumManager, digest: string -> nat,
                      key: string, value: V, responsible: NodeInfo, forwardAnswered: bool,
                      n: int, w: int, replies: seq<Rpc<PutReply>>, timedOut: bool)
    returns (res: PutResult, replicas: seq<NodeInfo>, sent: seq<(NodeInfo, PutReplicaMsg<V>)>)
    requires node.Valid() && qm.nodeId == node.nodeId
    modifies node.storage, qm
    ensures node.Valid()
    ensures qm.readQuorum == old(qm.readQuorum) && qm.writeQuorum == old(qm.writeQuorum)
    ensures (responsible.id != node.nodeId && forwardAnswered) ==>
      res == Forwarded && replicas == [] && sent == [] &&
      node.storage.primary == old(node.storage.primary) && node.storage.backup == old(node.storage.backup) &&
      node.storage.owners == old(node.storage.owners)
    ensures responsible.id == node.nodeId ==>
      res.Stored? &&
      res.version == NextVersion(VersionOf(old(node.storage.primary), key), node.nodeId) &&
      node.storage.primary == old(node.storage.primary)[key := Entry(value, res.version)] &&
      node.storage.backup == old(node.storage.backup) && node.storage.owners == old(node.storage.owners)
    ensures (responsible.id != node.nodeId && !forwardAnswered) ==>
      res.Stored? &&
      res.version == NextVersion(VersionOf(Held(old(node.storage.backup), responsible.id), key), node.nodeId) &&
      node.storage.backup == WithBackup(old(node.storage.backup), responsible.id, key, Entry(value, res.version)) &&
      node.storage.primary == old(node.storage.primary)
    ensures res.Stored? ==>
      replicas == ReplicasFor(NSuccessors(node.ft.allNodes, HashToRing(digest, key, node.m), n),
                              node.nodeId, responsible.id, n, node.successorList, node.nReplicas)
    ensures res.Stored? ==>
      (res.ok <==> NeededRemoteAcks(w) == 0 ||
                   (replicas != [] && !timedOut && |Acknowledged(replicas, replies)| >= NeededRemoteAcks(w)))
    ensures (res.Stored? && NeededRemoteAcks(w) > 0 && replicas != []) ==>
      |sent| == |replicas| &&
      forall i :: 0 <= i < |sent| ==>
        sent[i] == (replicas[i], PutReplicaRequest(node.nodeId, key, value, res.version, Some(responsible.id)))
    ensures (res.Stored? && (NeededRemoteAcks(w) == 0 || replicas == [])) ==> sent == []
  {
    var primaryId := responsible.id;
    replicas, sent := [], [];
    if primaryId != node.nodeId && forwardAnswered {
      return Forwarded, replicas, sent;
    }
    var version: Clock;
    if primaryId == node.nodeId {
      version := node.storage.Put(key, value, None);
    } else {
      version := StoreHinted(node.storage, key, value, primaryId);
    }
    replicas := ChooseReplicas(node, HashToRing(digest, key, node.m), primaryId, n);
    var success;
    success, sent := SendReplicas(qm, key, value, version, replicas, primaryId, w, replies, timedOut);
    res := Stored(success, version);
  }

  /** The sloppy-quorum store: kept as a hinted backup for the absent primary. */
  method StoreHinted<V>(st: ChordStorage<V>, key: string, value: V, primaryId: int) returns (version: Clock)
    requires st.Valid()
    modifies st
    ensures st.Valid()
    ensures version == NextVersion(VersionOf(Held(old(st.backup), primaryId), key), st.nodeId)
    ensures st.backup == WithBackup(old(st.backup), primaryId, key, Entry(value, version))
    ensures st.primary == old(st.primary)
  {
    var existing := st.GetBackup(key, primaryId);
    if existing.Some? {
      version := Inc(existing.value.version, st.nodeId);
    } else {
      version := Inc(map[], st.nodeId);
    }
    var _ := st.PutBackup(key, value, version, primaryId);
  }

  /** The replicas of a PUT, taken from the node's ring view and successor list. */
  method ChooseReplicas<V>(node: Node.ChordNode<V>, keyHash: int, primaryId: int, n: int)
    returns (replicas: seq<NodeInfo>)
    requires node.Valid()
    ensures replicas == ReplicasFor(NSuccessors(node.ft.allNodes, keyHash, n),
                                    node.nodeId, primaryId, n, node.successorList, node.nReplicas)
  {
    var all := node.ft.GetNSuccessors(keyHash, n);
    replicas := SelectTargets(all, node.nodeId, primaryId, n);
    if |replicas| == 0 && |node.successorList| > 0 {
      var list := node.GetSuccessorList(None);
      replicas := Take(list, n - 1);
    }
  }

  /**
   * The replica writes of a PUT, run with the write quorum lowered to the
   * remote acknowledgements needed and then put back.
   */
  method SendReplicas<V>(qm: Quorum.QuorumManager, key: string, value: V, version: Clock,
                         replicas: seq<NodeInfo>, primaryId: int, w: int,
                         replies: seq<Rpc<PutReply>>, timedOut: bool)
    returns (success: bool, sent: seq<(NodeInfo, PutReplicaMsg<V>)>)
    modifies qm
    ensures qm.readQuorum == old(qm.readQuorum) && qm.writeQuorum == old(qm.writeQuorum)
    ensures success <==>
      (NeededRemoteAcks(w) == 0 || (replicas != [] && !timedOut && |Acknowledged(replicas, replies)| >= NeededRemoteAcks(w)))
    ensures (NeededRemoteAcks(w) > 0 && replicas != []) ==>
      |sent| == |replicas| &&
      forall i :: 0 <= i < |sent| ==>
        sent[i] == (replicas[i], PutReplicaRequest(qm.nodeId, key, value, version, Some(primaryId)))
    ensures (NeededRemoteAcks(w) == 0 || replicas == []) ==> sent == []
  {
    sent := [];
    var needed := NeededRemoteAcks(w);
    if needed == 0 {
      success := true;
    } else if |replicas| == 0 {
      success := false;
    } else {
      var originalW := qm.writeQuorum;
      qm.writeQuorum := needed;
      var echoed;
      success, echoed, sent := qm.QuorumPut(key, value, version, replicas, Some(primaryId), replies, timedOut);
      qm.writeQuorum := originalW;
    }
  }

  /**
   * The sloppy-quorum clock: a write kept for an absent primary is strictly
   * after any copy this node already holds for it, and touches only this
   * node's own counter.
   */
  lemma SloppyVersionIsAfterHeldCopy<V>(backup: map<int, Store<V>>, primary: int, key: string, self: int)
    ensures var v := NextVersion(VersionOf(Held(backup, primary), key), self);
      (key in Held(backup, primary) ==>
        Before(Held(backup, primary)[key].version, v) &&
        forall n :: n != self ==> At(v, n) == At(Held(backup, primary)[key].version, n)) &&
      (key !in Held(backup, primary) ==> v == map[self := 1])
  {
  }

  // ---------------------------------------------------------------------
  // PUT_REPLICA

  /**
   * The clock a replica write is kept under: the held copy's clock joined
   * with the incoming one, or the incoming one alone, then this node's
   * counter raised by one. It is strictly after both.
   */
  function ReplicaVersion(existing: Option<Clock>, incoming: Clock, self: int): (v: Clock)
    ensures existing.None? ==> Before(incoming, v)
    ensures existing.Some? && NonNeg(existing.value) ==> Before(existing.value, v) && Before(incoming, v)
    ensures v.Keys == incoming.Keys + {self} + (if existing.Some? then existing.value.Keys else {})
  {
    match existing
    case None => IncIsAfter(incoming, self); Inc(incoming, self)
    case Some(e) => MergedIsAfter(e, incoming, self); Inc(Join(e, incoming), self)
  }

  /** `merge` is after both clocks when the held one has no negative counter. */
  lemma MergedIsAfter(e: Clock, incoming: Clock, self: int)
    ensures NonNeg(e) ==> Before(e, Inc(Join(e, incoming), self)) && Before(incoming, Inc(Join(e, incoming), self))
  {
    if NonNeg(e) {
      MergeIsAfterBoth(e, incoming, self);
    }
  }

  /**
   * A replica write received twice: the second time the join adds nothing,
   * so the stored clock is the first one with this node's counter raised
   * once more.
   */
  lemma ReplicaTwiceBumpsTwice(existing: Option<Clock>, incoming: Clock, self: int)
    ensures ReplicaVersion(Some(ReplicaVersion(existing, incoming, self)), incoming, self) ==
      Inc(ReplicaVersion(existing, incoming, self), self)
  {
    var v1 := ReplicaVersion(existing, incoming, self);
    ReplicaVersionCovers(existing, incoming, self);
    JoinAbsorbs(v1, incoming);
  }

  /** The replica's clock is at least the incoming one on every entry the incoming one has. */
  lemma ReplicaVersionCovers(existing: Option<Clock>, incoming: Clock, self: int)
    ensures forall n :: n in incoming ==> At(ReplicaVersion(existing, incoming, self), n) >= incoming[n]
  {
    var v1 := ReplicaVersion(existing, incoming, self);
    forall n | n in incoming ensures At(v1, n) >= incoming[n] {
      if existing.Some? {
        var j0 := Join(existing.value, incoming);
        assert At(v1, n) >= At(j0, n) >= incoming[n];
      }
    }
  }

  /** Joining a clock that is already covered changes nothing. */
  lemma JoinAbsorbs(v: Clock, d: Clock)
    requires forall n :: n in d ==> At(v, n) >= d[n]
    requires d.Keys <= v.Keys
    ensures Join(v, d) == v
  {
    var j := Join(v, d);
    forall n | n in j ensures j[n] == v[n] {
      assert At(j, n) == At(v, n) by {
        if n in d {
          assert At(j, n) == Max(At(v, n), d[n]);
        }
      }
    }
  }

  /**
   * `handle_put_replica`. The version arrives as a dictionary; one that
   * does not parse is an error and nothing is stored. Otherwise the record
   * is kept as a backup for the primary named in the message, or for the
   * sender when none is named, under `ReplicaVersion`, and the reply is
   * 'ok' with that version.
   */
  method HandlePutReplica<V>(st: ChordStorage<V>, sender: int, key: string, value: V,
                             versionDict: map<string, int>, primary: Option<int>)
    returns (reply: PutReply, version: Option<map<string, int>>)
    requires st.Valid()
    modifies st
    ensures st.Valid()
    ensures reply.isPutReplicaReply
    ensures PutAcknowledged(Reply(reply)) <==> FromDict(versionDict).Some?
    ensures FromDict(versionDict).None? ==>
      reply.status == Some("error") && version.None? &&
      st.primary == old(st.primary) && st.backup == old(st.backup) && st.owners == old(st.owners)
    ensures FromDict(versionDict).Some? ==>
      var owner := primary.GetOr(sender);
      var v := ReplicaVersion(VersionOf(Held(old(st.backup), owner), key), FromDict(versionDict).value, st.nodeId);
      version == Some(ToDict(v)) &&
      st.backup == WithBackup(old(st.backup), owner, key, Entry(value, v)) &&
      st.primary == old(st.primary)
  {
    var owner := primary.GetOr(sender);
    var incoming := FromDict(versionDict);
    if incoming.None? {
      return PutReply(true, Some("error")), None;
    }
    var v := StoreReplica(st, key, value, incoming.value, owner);
    reply, version := PutReply(true, Some("ok")), Some(ToDict(v));
  }

  /** The store step of `handle_put_replica`, once the version has parsed. */
  method StoreReplica<V>(st: ChordStorage<V>, key: string, value: V, incoming: Clock, owner: int)
    returns (v: Clock)
    requires st.Valid()
    modifies st
    ensures st.Valid()
    ensures v == ReplicaVersion(VersionOf(Held(old(st.backup), owner), key), incoming, st.nodeId)
    ensures st.backup == WithBackup(old(st.backup), owner, key, Entry(value, v))
    ensures st.primary == old(st.primary)
  {
    var existing := st.GetBackup(key, owner);
    var held := if existing.Some? then Some(existing.value.version) else None;
    v := ReplicaVersion(held, incoming, st.nodeId);
    var _ := st.PutBackup(key, value, v, owner);
  }

  /** A PUT_REPLICA built by the coordinator always parses, so the replica acknowledges it. */
  lemma ReplicaRequestIsAcknowledged<V>(self: int, key: string, value: V, version: Clock, primary: Option<int>)
    ensures FromDict(PutReplicaRequest(self, key, value, version, primary).version) == Some(version)
    ensures PutAcknowledged(Reply(PutReply(true, Some("ok"))))
  {
  }

  // ---------------------------------------------------------------------
  // GET_REPLICA

  /** The first owner, in the order the backups were created, that holds `key`. */
  function FirstHolder<V>(backup: map<int, Store<V>>, owners: seq<int>, key: string): (r: Option<Entry<V>>)
  {
    if owners == [] then None
    else if owners[0] in backup && key in backup[owners[0]] then Some(backup[owners[0]][key])
    else FirstHolder(backup, owners[1..], key)
  }

  /**
   * `FirstHolder` finds a copy exactly when some listed owner holds the
   * key, and the copy it finds is that of the earliest such owner.
   */
  lemma {:induction false} FirstHolderSpec<V>(backup: map<int, Store<V>>, owners: seq<int>, key: string)
    ensures FirstHolder(backup, owners, key).Some? <==>
      exists i :: 0 <= i < |owners| && owners[i] in backup && key in backup[owners[i]]
    ensures FirstHolder(backup, owners, key).Some? ==>
      exists i :: 0 <= i < |owners| && owners[i] in backup && key in backup[owners[i]] &&
        FirstHolder(backup, owners, key) == Some(backup[owners[i]][key]) &&
        forall j :: 0 <= j < i ==> !(owners[j] in backup && key in backup[owners[j]])
  {
    if owners != [] {
      FirstHolderSpec(backup, owners[1..], key);
      if !(owners[0] in backup && key in backup[owners[0]]) {
        if FirstHolder(backup, owners, key).Some? {
          var i :| 0 <= i < |owners[1..]| && owners[1..][i] in backup && key in backup[owners[1..][i]] &&
            FirstHolder(backup, owners[1..], key) == Some(backup[owners[1..][i]][key]) &&
            forall j :: 0 <= j < i ==> !(owners[1..][j] in backup && key in backup[owners[1..][j]]);
          assert owners[i + 1] == owners[1..][i];
          forall j | 0 <= j < i + 1 ensures !(owners[j] in backup && key in backup[owners[j]]) {
            if j > 0 {
              assert owners[j] == owners[1..][j - 1];
            }
          }
        }
        forall i | 0 <= i < |owners| && owners[i] in backup && key in backup[owners[i]]
          ensures FirstHolder(backup, owners, key).Some?
        {
          assert i > 0 && owners[1..][i - 1] == owners[i];
        }
      }
    }
  }

  /**
   * The GET_REPLICA lookup order: the primary store, then the backup kept
   * for the hinted primary, then the backups in the order they were made.
   */
  function ReplicaLookup<V>(primary: Store<V>, backup: map<int, Store<V>>, owners: seq<int>,
                            key: string, hint: Option<int>): Option<Entry<V>>
  {
    if key in primary then Some(primary[key])
    else if hint.Some? && key in Held(backup, hint.value) then Some(backup[hint.value][key])
    else FirstHolder(backup, owners, key)
  }

  /**
   * With every backup owner listed, the lookup finds a record exactly when
   * the node holds the key somewhere, prefers the primary copy, then the
   * hinted one, and otherwise returns some backup copy.
   */
  lemma ReplicaLookupSpec<V>(primary: Store<V>, backup: map<int, Store<V>>, owners: seq<int>,
                             key: string, hint: Option<int>)
    requires forall o :: o in backup <==> o in owners
    ensures ReplicaLookup(primary, backup, owners, key, hint).Some? <==>
      key in primary || exists o :: o in backup && key in backup[o]
    ensures key in primary ==> ReplicaLookup(primary, backup, owners, key, hint) == Some(primary[key])
    ensures (key !in primary && hint.Some? && key in Held(backup, hint.value)) ==>
      ReplicaLookup(primary, backup, owners, key, hint) == Some(backup[hint.value][key])
    ensures ReplicaLookup(primary, backup, owners, key, hint).Some? && key !in primary ==>
      exists o :: o in backup && key in backup[o] &&
        ReplicaLookup(primary, backup, owners, key, hint) == Some(backup[o][key])
  {
    FirstHolderSpec(backup, owners, key);
    if key !in primary && (exists o :: o in backup && key in backup[o]) {
      var o :| o in backup && key in backup[o];
      var i :| 0 <= i < |owners| && owners[i] == o;
    }
    var r := ReplicaLookup(primary, backup, owners, key, hint);
    if r.Some? && key !in primary {
      if hint.Some? && key in Held(backup, hint.value) {
        assert hint.value in backup && r == Some(backup[hint.value][key]);
      } else {
        assert r == FirstHolder(backup, owners, key);
        var i :| 0 <= i < |owners| && owners[i] in backup && key in backup[owners[i]] &&
          FirstHolder(backup, owners, key) == Some(backup[owners[i]][key]);
        var o := owners[i];
        assert o in backup && key in backup[o] && r == Some(backup[o][key]);
      }
    }
  }

  /** The reply to GET_REPLICA for a lookup result. */
  function GetReplyFor<V>(found: Option<Entry<V>>): GetReply<V>
  {
    match found
    case Some(e) => GetReply(true, Some(e.value), Some(ToDict(e.version)))
    case None => GetReply(true, None, None)
  }

  /** `handle_get_replica`: the store is read, not changed. */
  method HandleGetReplica<V>(st: ChordStorage<V>, key: string, hint: Option<int>) returns (reply: GetReply<V>)
    ensures reply == GetReplyFor(ReplicaLookup(st.primary, st.backup, st.owners, key, hint))
  {
    var found := st.Get(key);
    if found.None? && hint.Some? {
      found := st.GetBackup(key, hint.value);
    }
    if found.None? {
      var i := 0;
      while i < |st.owners|
        invariant 0 <= i <= |st.owners|
        invariant found.None?
        invariant FirstHolder(st.backup, st.owners, key) == FirstHolder(st.backup, st.owners[i..], key)
      {
        var o := st.owners[i];
        if o in st.backup && key in st.backup[o] {
          found := Some(st.backup[o][key]);
          break;
        }
        assert st.owners[i..][1..] == st.owners[i + 1..];
        i := i + 1;
      }
    }
    reply := GetReplyFor(found);
  }

  /**
   * What the reading coordinator makes of the reply: the record found, when
   * its clock is not empty; nothing when no record was found.
   */
  lemma GetReplicaRoundTrip<V>(found: Option<Entry<V>>)
    ensures found.None? ==> GetReplicaResult(Reply(GetReplyFor(found))).None?
    ensures found.Some? && found.value.version != map[] ==>
      GetReplicaResult(Reply(GetReplyFor(found))) == Some((found.value.value, found.value.version))
  {
    if found.Some? && found.value.version != map[] {
      var c := found.value.version;
      DictRoundTrip(c);
    }
  }

  // ---------------------------------------------------------------------
  // RECOVER_HANDOFF

  /**
   * `handle_recover_handoff`: hands back every record kept for the
   * requester (the sender when the message names nobody) and deletes them
   * one by one, leaving the requester's now empty map in place.
   */
  method HandleRecoverHandoff<V>(st: ChordStorage<V>, requester: Option<int>, sender: int)
    returns (records: Store<V>)
    requires st.Valid()
    modifies st
    ensures st.Valid()
    ensures records == Held(old(st.backup), requester.GetOr(sender))
    ensures Held(st.backup, requester.GetOr(sender)) == map[]
    ensures st.backup == if requester.GetOr(sender) in old(st.backup)
      then old(st.backup)[requester.GetOr(sender) := map[]] else old(st.backup)
    ensures st.primary == old(st.primary) && st.owners == old(st.owners)
  {
    var req := requester.GetOr(sender);
    records := st.GetAllBackupsForNode(req);
    if req !in st.backup {
      return;
    }
    var todo := records.Keys;
    assert Restrict(records, todo) == records;
    while todo != {}
      invariant st.Valid()
      invariant todo <= records.Keys
      invariant st.backup == old(st.backup)[req := Restrict(records, todo)]
      invariant st.primary == old(st.primary) && st.owners == old(st.owners)
      decreases |todo|
    {
      var k :| k in todo;
      var _ := st.DeleteBackup(k, req);
      RestrictRemove(records, todo, k);
      todo := todo - {k};
    }
    assert Restrict(records, todo) == map[];
  }

  /** Deleting one key from a restricted store restricts it further. */
  lemma RestrictRemove<V>(records: Store<V>, todo: set<string>, k: string)
    ensures Restrict(records, todo) - {k} == Restrict(records, todo - {k})
  {
  }

  // ---------------------------------------------------------------------
  // TRANSFER_KEYS_REQUEST

  /**
   * Whether a key with ring position `h` goes to the joining node: with the
   * new node's predecessor known, `h` in (predecessor, new node]; without
   * it, the rough rule `h <= new node or h > this node`.
   */
  predicate Handed(h: int, newId: int, predId: Option<int>, self: int)
  {
    match predId
    case Some(p) => InRange(h, p, newId, false, true)
    case None => h <= newId || h > self
  }

  /**
   * `handle_transfer_keys_request`: the primary records that go to the
   * joining node, with their values and clocks; nothing is deleted here.
   */
  method HandleTransferKeysRequest<V>(st: ChordStorage<V>, digest: string -> nat, m: nat,
                                      newId: int, predId: Option<int>)
    returns (records: Store<V>)
    ensures records == map k | k in st.primary && Handed(HashToRing(digest, k, m), newId, predId, st.nodeId) ::
      st.primary[k]
  {
    records := map[];
    var todo := st.primary.Keys;
    while todo != {}
      invariant todo <= st.primary.Keys
      invariant forall k :: k in records <==>
        k in st.primary && k !in todo && Handed(HashToRing(digest, k, m), newId, predId, st.nodeId)
      invariant forall k :: k in records ==> records[k] == st.primary[k]
      decreases |todo|
    {
      var k :| k in todo;
      if Handed(HashToRing(digest, k, m), newId, predId, st.nodeId) {
        records := records[k := st.primary[k]];
      }
      todo := todo - {k};
    }
  }

  /**
   * With the predecessor given, the handed-over keys are exactly those the
   * ring assigns to the new node: on a ring where the new node follows its
   * predecessor, a position is handed over iff its successor is the new node.
   */
  lemma HandedIsNewNodesShare(ns: seq<NodeInfo>, pred: NodeInfo, newNode: NodeInfo, h: int, self: int)
    requires SortedById(ns) && pred in ns && newNode in ns
    requires RingSuccessor(ns, pred.id + 1) == Some(newNode)
    ensures Handed(h, newNode.id, Some(pred.id), self) <==> RingSuccessor(ns, h) == Some(newNode)
  {
    OwnedArc(ns, pred, newNode, h);
  }

  /**
   * Without the predecessor the rough rule can hand over a key the
   * answering node still owns: on the ring {10, 50} the node 10 answering
   * for a new node 50 gives away position 5, whose successor is 10.
   */
  lemma RoughRuleGivesAwayOwnKeys()
    ensures Handed(5, 50, None, 10)
    ensures RingSuccessor([NodeInfo(10, "a"), NodeInfo(50, "b")], 5) == Some(NodeInfo(10, "a"))
  {
    RingSuccessorIs([NodeInfo(10, "a"), NodeInfo(50, "b")], 5, NodeInfo(10, "a"));
  }

  // ---------------------------------------------------------------------
  // Start-up check

  /** The check `main` makes of R and W before starting: R first, then W. */
  function CheckArgs(n: int, r: int, w: int): (e: Option<Quorum.QuorumError>)
    ensures e.None? <==> Config.ValidateQuorumFor(n, r, w).valid
    ensures e == Quorum.CheckQuorum(r, w, n)
  {
    if r < 1 || r > n then Some(Quorum.InvalidRead(r, n))
    else if w < 1 || w > n then Some(Quorum.InvalidWrite(w, n))
    else None
  }
}
