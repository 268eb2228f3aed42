// A Chord node (chord/node.py): its place on the ring (successor in finger
// slot 0, predecessor, successor list), the maintenance steps that move it,
// and the reconciliation of records handed back to it.

module Node {
  import opened Base
  import opened VectorClocks
  import opened Routing
  import opened Storage

  // ---------------------------------------------------------------------
  // find_successor

  /**
   * The node `find_successor(id)` answers with: this node when it knows
   * no other, the successor when `id` is on (self, successor], this node
   * when `id` is on (predecessor, self], and otherwise the closest
   * preceding finger, or the successor when no finger precedes `id`.
   */
  function NextHop(self: NodeInfo, succ: Option<NodeInfo>, pred: Option<NodeInfo>,
                   fs: seq<Option<NodeInfo>>, id: int): (r: NodeInfo)
    ensures succ.None? || succ.value.id == self.id ==> r == self
    ensures succ.Some? && succ.value.id != self.id && InRange(id, self.id, succ.value.id, false, true) ==>
      r == succ.value
    ensures (succ.Some? && succ.value.id != self.id && !InRange(id, self.id, succ.value.id, false, true) &&
             pred.Some? && InRange(id, pred.value.id, self.id, false, true)) ==>
        r == self
    ensures r == self || (succ.Some? && r == succ.value) ||
      exists i :: 0 <= i < |fs| && fs[i] == Some(r) && Precedes(fs[i], self.id, id) &&
        forall j :: i < j < |fs| ==> !Precedes(fs[j], self.id, id)
    ensures FallsThrough(self, succ, pred, id) && (forall i :: 0 <= i < |fs| ==> !Precedes(fs[i], self.id, id)) ==>
      r == succ.value
    ensures FallsThrough(self, succ, pred, id) ==>
      forall i :: 0 <= i < |fs| && Precedes(fs[i], self.id, id) && (forall j :: i < j < |fs| ==> !Precedes(fs[j], self.id, id)) ==>
        r == if fs[i].value.id == self.id then succ.value else fs[i].value
  {
    if succ.None? || succ.value.id == self.id then self
    else if InRange(id, self.id, succ.value.id, false, true) then succ.value
    else if pred.Some? && InRange(id, pred.value.id, self.id, false, true) then self
    else
      var closest := ClosestPreceding(fs, self.id, id);
      ClosestPrecedingIsHighest(fs, self.id, id);
      if closest.None? || closest.value.id == self.id then succ.value else closest.value
  }

  /**
   * `find_successor(id)` gets past its early answers: there is a successor
   * other than this node, `id` is not on (self, successor], and it is not
   * on (predecessor, self] either.
   */
  predicate FallsThrough(self: NodeInfo, succ: Option<NodeInfo>, pred: Option<NodeInfo>, id: int)
  {
    && succ.Some? && succ.value.id != self.id
    && !InRange(id, self.id, succ.value.id, false, true)
    && !(pred.Some? && InRange(id, pred.value.id, self.id, false, true))
  }

  // ---------------------------------------------------------------------
  // notify

  /** `notify(c)`: adopt `c` when there is no predecessor or `c` is strictly between it and self. */
  function NotifyRule(pred: Option<NodeInfo>, self: int, c: NodeInfo): Option<NodeInfo>
  {
    if pred.None? || InRange(c.id, pred.value.id, self, false, false) then Some(c) else pred
  }

  /** Being notified twice by the same node is the same as once. */
  lemma NotifyIdempotent(pred: Option<NodeInfo>, self: int, c: NodeInfo)
    ensures NotifyRule(NotifyRule(pred, self, c), self, c) == NotifyRule(pred, self, c)
  {
  }

  /**
   * On a ring of `size` positions a replaced predecessor only moves
   * closer: the new one is strictly between the old one and self.
   */
  lemma NotifyMovesCloser(pred: Option<NodeInfo>, self: int, c: NodeInfo, size: int)
    requires 0 < size && 0 <= self < size && 0 <= c.id < size
    requires pred.Some? && 0 <= pred.value.id < size && pred.value.id != self
    ensures NotifyRule(pred, self, c) != pred ==>
      0 < Dist(pred.value.id, c.id, size) < Dist(pred.value.id, self, size)
  {
    InRangeIsClockwiseArc(c.id, pred.value.id, self, false, false, size);
  }

  // ---------------------------------------------------------------------
  // fix_fingers: the slot it repairs goes round the table.

  /** The slot repaired by the `calls`-th call after starting at `start`. */
  function SlotAfter(start: int, calls: nat, m: int): int
  {
    if calls == 0 then start else NextIndex(SlotAfter(start, calls - 1, m), m)
  }

  lemma {:induction false} SlotAfterNoWrap(start: int, k: nat, m: int)
    requires 0 <= start && start + k < m
    ensures SlotAfter(start, k, m) == start + k
  {
    if k > 0 {
      SlotAfterNoWrap(start, k - 1, m);
      ModOnce(start + k, m);
    }
  }

  lemma {:induction false} SlotAfterSplit(start: int, a: nat, b: nat, m: int)
    ensures SlotAfter(start, a + b, m) == SlotAfter(SlotAfter(start, a, m), b, m)
  {
    if b > 0 {
      SlotAfterSplit(start, a, b - 1, m);
    }
  }

  /** Any `m` consecutive calls of `fix_fingers` repair every slot. */
  lemma FixFingersVisitsEverySlot(start: int, m: int, s: int) returns (calls: nat)
    requires 0 <= start < m && 0 <= s < m
    ensures 1 <= calls <= m && SlotAfter(start, calls, m) == s
  {
    if s > start {
      calls := s - start;
      SlotAfterNoWrap(start, calls, m);
    } else {
      var toTop := m - 1 - start;
      SlotAfterNoWrap(start, toTop, m);
      assert SlotAfter(start, toTop + 1, m) == 0 by {
        ModOnce(m, m);
      }
      SlotAfterNoWrap(0, s, m);
      SlotAfterSplit(start, toTop + 1, s, m);
      calls := toTop + 1 + s;
    }
  }

  // ---------------------------------------------------------------------
  // The successor list.

  /** No id occurs twice. */
  predicate UniqueIds(ns: seq<NodeInfo>)
  {
    forall i, j :: 0 <= i < j < |ns| ==> ns[i].id != ns[j].id
  }

  /**
   * `update_successor_list`: when the list is empty or headed by another
   * node, the successor goes in front of the first `n - 1` old entries.
   */
  function Refreshed(succ: Option<NodeInfo>, list: seq<NodeInfo>, n: int): (r: seq<NodeInfo>)
    ensures succ.Some? ==> |r| > 0 && r[0].id == succ.value.id
    ensures succ.None? ==> r == list
  {
    if succ.Some? && (list == [] || list[0].id != succ.value.id) then [succ.value] + Take(list, n - 1)
    else list
  }

  /** A second refresh right after the first changes nothing. */
  lemma RefreshedIdempotent(succ: Option<NodeInfo>, list: seq<NodeInfo>, n: int)
    ensures Refreshed(succ, Refreshed(succ, list, n), n) == Refreshed(succ, list, n)
  {
  }

  /** A list no longer than `n` stays no longer than `n`. */
  lemma RefreshedBounded(succ: Option<NodeInfo>, list: seq<NodeInfo>, n: int)
    requires n >= 1 && |list| <= n
    ensures |Refreshed(succ, list, n)| <= n
  {
  }

  /**
   * The loop over the successor's own list in
   * `update_successor_list_network`: while the new list is shorter than
   * `n`, each entry whose id is not yet seen is appended.
   */
  function Extend(acc: seq<NodeInfo>, seen: set<int>, rest: seq<NodeInfo>, n: int): seq<NodeInfo>
    decreases |rest|
  {
    if rest == [] || |acc| >= n then acc
    else if rest[0].id in seen then Extend(acc, seen, rest[1..], n)
    else Extend(acc + [rest[0]], seen + {rest[0].id}, rest[1..], n)
  }

  /**
   * What the loop keeps: `acc` stays a prefix, gets no duplicate id and
   * never this node, and only takes entries from `rest`.
   */
  lemma {:induction false} ExtendKeeps(acc: seq<NodeInfo>, self: int, rest: seq<NodeInfo>, n: int)
    requires UniqueIds(acc) && self !in Ids(acc)
    ensures var r := Extend(acc, {self} + Ids(acc), rest, n);
      && |acc| <= |r| && r[..|acc|] == acc
      && UniqueIds(r) && self !in Ids(r)
      && (forall x :: x in r ==> x in acc || x in rest)
    decreases |rest|
  {
    if rest != [] && |acc| < n {
      var x := rest[0];
      if x.id in {self} + Ids(acc) {
        ExtendKeeps(acc, self, rest[1..], n);
      } else {
        var acc' := acc + [x];
        assert Ids(acc') == Ids(acc) + {x.id};
        assert {self} + Ids(acc) + {x.id} == {self} + Ids(acc');
        assert Extend(acc, {self} + Ids(acc), rest, n) == Extend(acc', {self} + Ids(acc'), rest[1..], n);
        assert UniqueIds(acc') by {
          forall i | 0 <= i < |acc|
            ensures acc'[i].id != x.id
          {
            assert acc[i] in acc;
          }
        }
        ExtendKeeps(acc', self, rest[1..], n);
        var r := Extend(acc', {self} + Ids(acc'), rest[1..], n);
        assert r[..|acc|] == r[..|acc'|][..|acc|];
      }
    }
  }

  /**
   * The list rebuilt from the successor's reply: the successor, then the
   * unseen entries of its list while there is room, then the predecessor
   * if there is still room and it is unseen, cut to `n`.
   */
  function Rebuilt(self: int, succ: NodeInfo, reply: seq<NodeInfo>, pred: Option<NodeInfo>, n: int): seq<NodeInfo>
  {
    var l := Extend([succ], {self, succ.id}, reply, n);
    var l' := if |l| < n && pred.Some? && pred.value.id !in {self} + Ids(l) then l + [pred.value] else l;
    Take(l', n)
  }

  /**
   * The rebuilt list is headed by the successor, holds neither this node
   * nor a duplicate id, takes its other entries from the reply or the
   * predecessor, and is no longer than `n`.
   */
  lemma RebuiltShape(self: int, succ: NodeInfo, reply: seq<NodeInfo>, pred: Option<NodeInfo>, n: int)
    requires succ.id != self && n >= 1
    ensures var r := Rebuilt(self, succ, reply, pred, n);
      && 1 <= |r| <= n && r[0] == succ
      && UniqueIds(r) && self !in Ids(r)
      && (forall x :: x in r ==> x == succ || x in reply || Some(x) == pred)
  {
    assert Ids([succ]) == {succ.id};
    ExtendKeeps([succ], self, reply, n);
    var l := Extend([succ], {self, succ.id}, reply, n);
    assert {self} + Ids([succ]) == {self, succ.id};
    assert l[0] == succ;
    if |l| < n && pred.Some? && pred.value.id !in {self} + Ids(l) {
      AppendUnique(l, pred.value);
      TakeUnique(l + [pred.value], n);
    } else {
      TakeUnique(l, n);
    }
  }

  /** A node whose id is not yet listed can be appended. */
  lemma AppendUnique(l: seq<NodeInfo>, x: NodeInfo)
    requires UniqueIds(l) && x.id !in Ids(l)
    ensures UniqueIds(l + [x]) && Ids(l + [x]) == Ids(l) + {x.id}
  {
    forall i | 0 <= i < |l|
      ensures l[i].id != x.id
    {
      assert l[i] in l;
    }
  }

  /** A prefix of at least one entry keeps the head, distinct ids and no new member. */
  lemma TakeUnique(l: seq<NodeInfo>, n: int)
    requires UniqueIds(l) && l != [] && n >= 1
    ensures var r := Take(l, n);
      && 1 <= |r| <= n && r[0] == l[0] && UniqueIds(r)
      && Ids(r) <= Ids(l) && (forall x :: x in r ==> x in l)
  {
    var r := Take(l, n);
    forall i, j | 0 <= i < j < |r| ensures r[i].id != r[j].id {
      assert r[i] == l[i] && r[j] == l[j];
    }
  }

  /**
   * `update_successor_list_network`: no successor gives an empty list; a
   * lone node lists its predecessor if that is another node; an exception
   * keeps only the successor; otherwise the list is rebuilt from the
   * successor's reply (an empty one when no usable reply came back).
   */
  function SuccessorListAfter(self: int, succ: Option<NodeInfo>, pred: Option<NodeInfo>,
                              reply: Rpc<seq<NodeInfo>>, n: int): (r: seq<NodeInfo>)
    ensures succ.None? ==> r == []
    ensures succ.Some? && succ.value.id == self ==>
      r == if pred.Some? && pred.value.id != self then [pred.value] else []
    ensures succ.Some? && succ.value.id != self && reply.Raised? ==> r == [succ.value]
  {
    if succ.None? then []
    else if succ.value.id == self then
      (if pred.Some? && pred.value.id != self then [pred.value] else [])
    else if reply.Raised? then [succ.value]
    else Rebuilt(self, succ.value, if reply.Reply? then reply.body else [], pred, n)
  }

  // ---------------------------------------------------------------------
  // stabilize_network

  /**
   * The successor after the stabilize decision: a lone node with a
   * predecessor takes it as successor; then a reported predecessor `x` of
   * the successor replaces it when `x` is not self and lies strictly
   * between self and the successor.
   */
  function Stabilized(self: int, succ: Option<NodeInfo>, pred: Option<NodeInfo>, reported: Rpc<Option<NodeInfo>>): (r: Option<NodeInfo>)
    ensures (succ.Some? && succ.value.id == self && pred.Some? && pred.value.id != self &&
             !(reported.Reply? && reported.body.Some?)) ==>
        r == pred
  {
    var s := if succ.Some? && succ.value.id == self && pred.Some? then pred else succ;
    if s.None? || s.value.id == self then s
    else if reported.Reply? && reported.body.Some? && reported.body.value.id != self &&
            InRange(reported.body.value.id, self, s.value.id, false, false)
    then reported.body
    else s
  }

  /**
   * Stabilizing only moves the successor closer: when the reported node
   * is adopted it is strictly between self and the successor it replaces.
   */
  lemma StabilizeMovesCloser(self: int, succ: NodeInfo, pred: Option<NodeInfo>, x: NodeInfo, size: int)
    requires 0 < size && 0 <= self < size && 0 <= succ.id < size && 0 <= x.id < size
    requires succ.id != self
    ensures Stabilized(self, Some(succ), pred, Reply(Some(x))) == Some(x) && x != succ ==>
      0 < Dist(self, x.id, size) < Dist(self, succ.id, size)
  {
    InRangeIsClockwiseArc(x.id, self, succ.id, false, false, size);
  }

  // ---------------------------------------------------------------------
  // Records handed to a node: _transfer_keys_on_join and step 2 of
  // recover_hinted_handoffs both take, reply after reply, each record that
  // is new or strictly after the one kept.

  /** The records after taking every reply in turn; replies that did not arrive are skipped. */
  function AbsorbEach<V>(p: Store<V>, replies: seq<Rpc<Store<V>>>): (r: Store<V>)
    decreases |replies|
  {
    if replies == [] then p
    else
      var q := AbsorbEach(p, replies[..|replies| - 1]);
      match replies[|replies| - 1]
      case Reply(data) => Absorb(q, data)
      case _ => q
  }

  /** No kept clock goes backwards, whatever the replies. */
  lemma {:induction false} AbsorbEachNeverGoesBack<V>(p: Store<V>, replies: seq<Rpc<Store<V>>>)
    ensures p.Keys <= AbsorbEach(p, replies).Keys
    ensures forall k :: k in p ==> Dominates(AbsorbEach(p, replies)[k].version, p[k].version)
    decreases |replies|
  {
    if replies != [] {
      var init := replies[..|replies| - 1];
      AbsorbEachNeverGoesBack(p, init);
      var q := AbsorbEach(p, init);
      match replies[|replies| - 1]
      case Reply(data) =>
        AbsorbNeverGoesBack(q, data);
        forall k | k in p
          ensures Dominates(Absorb(q, data)[k].version, p[k].version)
        {
          DominatesTransitive(Absorb(q, data)[k].version, q[k].version, p[k].version);
        }
      case _ =>
    }
  }

  // ---------------------------------------------------------------------
  // recover_hinted_handoffs, step 3: recovered records against the local
  // primary store.

  /**
   * The record kept for `key` when `e` is recovered: a strictly newer
   * recovered clock wins; a concurrent one (equal included) stores the
   * recovered value under the entrywise maximum of both clocks; otherwise
   * the local record stays. An absent key takes the recovered record.
   */
  function Reconciled<V>(local: Option<Entry<V>>, e: Entry<V>): Entry<V>
  {
    match local
    case None => e
    case Some(l) =>
      if Before(l.version, e.version) then e
      else if Concurrent(e.version, l.version) then Entry(e.value, Join(l.version, e.version))
      else l
  }

  /**
   * Whatever the case, the kept clock is at or after both the local and
   * the recovered one, so neither side's updates are lost.
   */
  lemma ReconciledDominatesBoth<V>(local: Option<Entry<V>>, e: Entry<V>)
    requires local.Some? ==> NonNeg(local.value.version)
    ensures Dominates(Reconciled(local, e).version, e.version)
    ensures local.Some? ==> Dominates(Reconciled(local, e).version, local.value.version)
  {
    DominatesIffAfterOrEqual(e.version, e.version);
    if local.Some? {
      var l := local.value;
      DominatesIffAfterOrEqual(e.version, l.version);
      DominatesIffAfterOrEqual(l.version, e.version);
      DominatesIffAfterOrEqual(l.version, l.version);
      if !Before(l.version, e.version) && Concurrent(e.version, l.version) {
        JoinIsLeastUpperBound(l.version, e.version, l.version);
      }
    }
  }

  /** The primary store after reconciling every recovered record. */
  function ReconcileAll<V>(p: Store<V>, recovered: Store<V>): (r: Store<V>)
    ensures r.Keys == p.Keys + recovered.Keys
  {
    map k | k in p.Keys + recovered.Keys ::
      if k in recovered then Reconciled(Lookup(p, k), recovered[k]) else p[k]
  }

  lemma ReconcileStep<V>(p: Store<V>, rec: Store<V>, done: set<string>, k: string)
    requires k in rec && k !in done
    ensures var q := ReconcileAll(p, Restrict(rec, done));
      ReconcileAll(p, Restrict(rec, done + {k})) == q[k := Reconciled(Lookup(q, k), rec[k])]
  {
  }

  lemma ReconcileNone<V>(p: Store<V>, rec: Store<V>)
    ensures ReconcileAll(p, Restrict(rec, rec.Keys - rec.Keys)) == p
  {
    assert Restrict(rec, rec.Keys - rec.Keys) == map[];
  }

  lemma ReconcileFull<V>(p: Store<V>, rec: Store<V>)
    ensures ReconcileAll(p, Restrict(rec, rec.Keys - {})) == ReconcileAll(p, rec)
  {
    assert Restrict(rec, rec.Keys - {}) == rec;
  }

  /** The nodes asked for hinted records: the next `n - 1` other nodes, or else the successor list's head. */
  function HandoffSources(all: seq<NodeInfo>, self: int, n: int, successorList: seq<NodeInfo>): (r: seq<NodeInfo>)
    ensures forall x :: x in r ==> x in all || x in successorList
  {
    var next := Take(WithoutId(NSuccessors(all, self, n), self), n - 1);
    NSuccessorsShape(all, self, n);
    if next != [] then next else Take(successorList, n - 1)
  }

  // ---------------------------------------------------------------------
  // The node.

  /**
   * `ChordNode`: its finger table (slot 0 is the successor), predecessor,
   * successor list, record store, and the next finger slot to repair.
   */
  class ChordNode<V> {
    const address: string
    const nodeId: int
    const m: nat
    const nReplicas: int
    const ft: FingerTable
    const storage: ChordStorage<V>
    var predecessor: Option<NodeInfo>
    var successorList: seq<NodeInfo>
    var nextFingerToFix: int

    ghost predicate Valid()
      reads this, ft, storage
    {
      && ft.Valid() && ft.nodeId == nodeId && ft.m == m
      && storage.Valid() && storage.nodeId == nodeId
      && 0 <= nextFingerToFix < m
    }

    /** `get_info`. */
    function Info(): (r: NodeInfo)
      reads this
      ensures r.id == nodeId && r.address == address
    {
      NodeInfo(nodeId, address)
    }

    /** The node's id is the hash of its address; the digest is a parameter. */
    constructor (address: string, m: nat, nReplicas: int, digest: string -> nat)
      requires m >= 1
      ensures Valid()
      ensures this.address == address && this.m == m && this.nReplicas == nReplicas
      ensures nodeId == HashToRing(digest, address, m) && 0 <= nodeId < Pow2(m)
      ensures predecessor.None? && successorList == [] && nextFingerToFix == 0
      ensures fresh(ft) && fresh(ft.fingers) && fresh(storage)
      ensures ft.allNodes == [] && forall i :: 0 <= i < m ==> ft.fingers[i].None?
      ensures storage.primary == map[] && storage.backup == map[]
    {
      var id := HashToRing(digest, address, m);
      this.address := address;
      this.m := m;
      this.nReplicas := nReplicas;
      this.nodeId := id;
      this.ft := new FingerTable(id, m);
      this.storage := new ChordStorage(id);
      predecessor := None;
      successorList := [];
      nextFingerToFix := 0;
    }

    /** `find_successor`, on what this node knows. */
    method FindSuccessor(identifier: int) returns (r: NodeInfo)
      requires Valid()
      ensures r == NextHop(Info(), ft.fingers[0], predecessor, ft.fingers[..], identifier)
    {
      var successor := ft.fingers[0];
      if successor.None? || successor.value.id == nodeId {
        return Info();
      }
      if InRange(identifier, nodeId, successor.value.id, false, true) {
        return successor.value;
      }
      if predecessor.Some? && InRange(identifier, predecessor.value.id, nodeId, false, true) {
        return Info();
      }
      var closest := FindClosestPrecedingNode(identifier);
      if closest.id == nodeId {
        return successor.value;
      }
      return closest;
    }

    /** `find_closest_preceding_node`: the closest preceding finger, else this node. */
    method FindClosestPrecedingNode(identifier: int) returns (r: NodeInfo)
      requires Valid()
      ensures r == ClosestPreceding(ft.fingers[..], nodeId, identifier).GetOr(Info())
    {
      var closest := ft.FindClosestPrecedingFinger(identifier);
      r := if closest.Some? then closest.value else Info();
    }

    /** `notify`. */
    method Notify(c: NodeInfo)
      requires Valid()
      modifies this
      ensures Valid()
      ensures predecessor == NotifyRule(old(predecessor), nodeId, c)
      ensures successorList == old(successorList) && nextFingerToFix == old(nextFingerToFix)
    {
      if predecessor.None? {
        predecessor := Some(c);
      } else if InRange(c.id, predecessor.value.id, nodeId, false, false) {
        predecessor := Some(c);
      }
    }

    /**
     * `fix_fingers`: moves to the next slot (round the table) and sets it
     * to what `find_successor` answers for that slot's start. No other
     * slot changes.
     */
    method FixFingers()
      requires Valid()
      modifies this, ft.fingers
      ensures Valid()
      ensures nextFingerToFix == NextIndex(old(nextFingerToFix), m)
      ensures ft.fingers[..] == old(ft.fingers[..])[nextFingerToFix :=
        Some(NextHop(Info(), old(ft.fingers[0]), predecessor, old(ft.fingers[..]), (nodeId + Pow2(nextFingerToFix)) % Pow2(m)))]
      ensures predecessor == old(predecessor) && successorList == old(successorList)
    {
      nextFingerToFix := if nextFingerToFix + 1 < m then nextFingerToFix + 1 else 0;
      ModOnce(old(nextFingerToFix) + 1, m);
      var start := ft.GetStart(nextFingerToFix);
      var successor := FindSuccessor(start);
      ft.SetFinger(nextFingerToFix, successor);
    }

    /** `create_ring`: alone on the ring. */
    method CreateRing()
      requires Valid()
      modifies this, ft.fingers
      ensures Valid()
      ensures predecessor.None? && successorList == [Info()]
      ensures ft.fingers[..] == old(ft.fingers[..])[0 := Some(Info())]
      ensures nextFingerToFix == old(nextFingerToFix)
    {
      predecessor := None;
      ft.SetSuccessor(Some(Info()));
      successorList := [Info()];
    }

    /** `join_ring(k)`: the known node becomes the successor. */
    method JoinRing(known: NodeInfo)
      requires Valid()
      modifies this, ft.fingers
      ensures Valid()
      ensures predecessor.None? && successorList == [known]
      ensures ft.fingers[..] == old(ft.fingers[..])[0 := Some(known)]
      ensures nextFingerToFix == old(nextFingerToFix)
    {
      predecessor := None;
      ft.SetSuccessor(Some(known));
      successorList := [known];
    }

    /** `get_successor_list(n)`: the first `n` entries, `n` defaulting to the replica count. */
    method GetSuccessorList(n: Option<int>) returns (r: seq<NodeInfo>)
      ensures r == Take(successorList, n.GetOr(nReplicas))
      ensures 0 <= n.GetOr(nReplicas) ==> |r| <= n.GetOr(nReplicas)
      ensures forall x :: x in r ==> x in successorList
    {
      r := Take(successorList, n.GetOr(nReplicas));
    }

    /** `update_successor_list`. */
    method UpdateSuccessorList()
      requires Valid()
      modifies this
      ensures Valid()
      ensures successorList == Refreshed(ft.fingers[0], old(successorList), nReplicas)
      ensures predecessor == old(predecessor) && nextFingerToFix == old(nextFingerToFix)
    {
      var successor := ft.fingers[0];
      if successor.Some? {
        if successorList == [] || successorList[0].id != successor.value.id {
          successorList := [successor.value] + Take(successorList, nReplicas - 1);
        }
      }
    }

    /**
     * `update_successor_list_network`, with the successor's answer to
     * GET_SUCCESSOR_LIST as a parameter.
     */
    method UpdateSuccessorListNetwork(reply: Rpc<seq<NodeInfo>>)
      requires Valid()
      modifies this
      ensures Valid()
      ensures successorList == SuccessorListAfter(nodeId, ft.fingers[0], predecessor, reply, nReplicas)
      ensures predecessor == old(predecessor) && nextFingerToFix == old(nextFingerToFix)
    {
      var successor := ft.fingers[0];
      if successor.None? {
        successorList := [];
        return;
      }
      var succ := successor.value;
      if succ.id == nodeId {
        if predecessor.Some? && predecessor.value.id != nodeId {
          successorList := [predecessor.value];
        } else {
          successorList := [];
        }
        return;
      }
      if reply.Raised? {
        successorList := [succ];
        return;
      }
      var newList := [succ];
      var seen := {nodeId, succ.id};
      assert Ids(newList) == {succ.id};
      var got := if reply.Reply? then reply.body else [];
      var i := 0;
      while i < |got|
        invariant 0 <= i <= |got|
        invariant seen == {nodeId} + Ids(newList)
        invariant Extend(newList, seen, got[i..], nReplicas) == Extend([succ], {nodeId, succ.id}, got, nReplicas)
      {
        if |newList| >= nReplicas {
          break;
        }
        var x := got[i];
        assert got[i..][1..] == got[i + 1..];
        if x.id !in seen {
          assert Ids(newList + [x]) == Ids(newList) + {x.id};
          newList := newList + [x];
          seen := seen + {x.id};
        }
        i := i + 1;
      }
      if |newList| < nReplicas && predecessor.Some? {
        if predecessor.value.id !in seen {
          newList := newList + [predecessor.value];
          seen := seen + {predecessor.value.id};
        }
      }
      successorList := Take(newList, nReplicas);
    }

    /**
     * `stabilize_network`, with the successor's answer to GET_PREDECESSOR
     * as a parameter. Returns the node NOTIFY is then sent to, if any.
     */
    method StabilizeNetwork(reported: Rpc<Option<NodeInfo>>) returns (notified: Option<NodeInfo>)
      requires Valid()
      modifies ft.fingers
      ensures ft.fingers[0] == Stabilized(nodeId, old(ft.fingers[0]), predecessor, reported)
      ensures forall i :: 1 <= i < m ==> ft.fingers[i] == old(ft.fingers[i])
      ensures notified.Some? <==> ft.fingers[0].Some? && ft.fingers[0].value.id != nodeId && !reported.Raised?
      ensures notified.Some? ==> notified == ft.fingers[0]
    {
      var successor := ft.fingers[0];
      if successor.Some? && successor.value.id == nodeId && predecessor.Some? {
        ft.SetSuccessor(predecessor);
        successor := predecessor;
      }
      if successor.None? || successor.value.id == nodeId {
        return None;
      }
      if reported.Raised? {
        return None;
      }
      if reported.Reply? && reported.body.Some? {
        var x := reported.body.value;
        if x.id != nodeId && InRange(x.id, nodeId, successor.value.id, false, false) {
          ft.SetSuccessor(Some(x));
        }
      }
      notified := ft.fingers[0];
    }

    /**
     * `_transfer_keys_on_join`: each successor after the first is asked
     * for the records now belonging here, and `replies[i]` is the answer
     * of the `i`-th one asked. Each record is kept if new or strictly
     * after the local one.
     */
    method TransferKeysOnJoin(replies: seq<Rpc<Store<V>>>) returns (asked: seq<NodeInfo>)
      requires Valid()
      requires |replies| == |Tail(NSuccessors(ft.allNodes, nodeId, nReplicas))|
      modifies storage
      ensures Valid()
      ensures asked == Tail(NSuccessors(ft.allNodes, nodeId, nReplicas))
      ensures storage.primary == AbsorbEach(old(storage.primary), replies)
      ensures storage.backup == old(storage.backup) && storage.owners == old(storage.owners)
    {
      asked := ft.GetNSuccessors(nodeId, nReplicas);
      asked := Tail(asked);
      ghost var p0 := storage.primary;
      for i := 0 to |replies|
        invariant Valid()
        invariant storage.primary == AbsorbEach(p0, replies[..i])
        invariant storage.backup == old(storage.backup) && storage.owners == old(storage.owners)
      {
        assert replies[..i + 1][..i] == replies[..i];
        if replies[i].Reply? {
          storage.ReceiveKeys(replies[i].body);
        }
      }
      assert replies[..|replies|] == replies;
    }

    /**
     * `recover_hinted_handoffs`, steps 1 to 3: the nodes to ask, the
     * records gathered from their replies (`replies[i]` answers the
     * `i`-th node asked), and the primary store after reconciling them.
     */
    method RecoverHintedHandoffs(replies: seq<Rpc<Store<V>>>) returns (asked: seq<NodeInfo>, recovered: Store<V>)
      requires Valid()
      requires |replies| == |HandoffSources(ft.allNodes, nodeId, nReplicas, successorList)|
      modifies storage
      ensures Valid()
      ensures asked == HandoffSources(ft.allNodes, nodeId, nReplicas, successorList)
      ensures recovered == AbsorbEach(map[], replies)
      ensures storage.primary == ReconcileAll(old(storage.primary), recovered)
      ensures storage.backup == old(storage.backup) && storage.owners == old(storage.owners)
    {
      var next := ft.GetNSuccessors(nodeId, nReplicas);
      asked := Take(WithoutId(next, nodeId), nReplicas - 1);
      if asked == [] {
        asked := Take(successorList, nReplicas - 1);
      }
      recovered := map[];
      for i := 0 to |replies|
        modifies {}
        invariant recovered == AbsorbEach(map[], replies[..i])
      {
        assert replies[..i + 1][..i] == replies[..i];
        if replies[i].Reply? {
          recovered := AbsorbRecords(recovered, replies[i].body);
        }
      }
      assert replies[..|replies|] == replies;
      ReconcileRecovered(recovered);
    }

    /** One record of step 3: the recovered record against the local one. */
    method ReconcileOne(k: string, e: Entry<V>)
      requires Valid()
      modifies storage
      ensures Valid()
      ensures storage.primary == old(storage.primary)[k := Reconciled(Lookup(old(storage.primary), k), e)]
      ensures storage.backup == old(storage.backup) && storage.owners == old(storage.owners)
    {
      var existing := storage.Get(k);
      if existing.Some? {
        var local := existing.value.version;
        if Before(local, e.version) {
          var _ := storage.Put(k, e.value, Some(e.version));
        } else if Concurrent(e.version, local) {
          var _ := storage.Put(k, e.value, Some(Join(local, e.version)));
        } else {
          assert storage.primary == storage.primary[k := existing.value];
        }
      } else {
        var _ := storage.Put(k, e.value, Some(e.version));
      }
    }

    /** Step 3 of `recover_hinted_handoffs`: each recovered record against the local one. */
    method ReconcileRecovered(recovered: Store<V>)
      requires Valid()
      modifies storage
      ensures Valid()
      ensures storage.primary == ReconcileAll(old(storage.primary), recovered)
      ensures storage.backup == old(storage.backup) && storage.owners == old(storage.owners)
    {
      ghost var p0 := storage.primary;
      var todo := recovered.Keys;
      ReconcileNone(p0, recovered);
      while todo != {}
        invariant Valid()
        invariant todo <= recovered.Keys
        invariant storage.primary == ReconcileAll(p0, Restrict(recovered, recovered.Keys - todo))
        invariant storage.backup == old(storage.backup) && storage.owners == old(storage.owners)
        decreases |todo|
      {
        var k :| k in todo;
        ghost var done := recovered.Keys - todo;
        ReconcileStep(p0, recovered, done, k);
        ReconcileOne(k, recovered[k]);
        todo := todo - {k};
        assert recovered.Keys - todo == done + {k};
      }
      ReconcileFull(p0, recovered);
    }
  }

  /** The recovered-keys loop of step 2: same rule as `receive_keys`, on a local dict. */
  method AbsorbRecords<V>(acc: Store<V>, data: Store<V>) returns (r: Store<V>)
    ensures r == Absorb(acc, data)
  {
    r := acc;
    var todo := data.Keys;
    AbsorbNone(acc, data);
    while todo != {}
      invariant todo <= data.Keys
      invariant r == Absorb(acc, Restrict(data, data.Keys - todo))
      decreases |todo|
    {
      var k :| k in todo;
      ghost var done := data.Keys - todo;
      AbsorbStep(acc, data, done, k);
      if k !in r || Before(r[k].version, data[k].version) {
        r := r[k := data[k]];
      }
      todo := todo - {k};
      assert data.Keys - todo == done + {k};
    }
    AbsorbAll(acc, data);
  }
}
