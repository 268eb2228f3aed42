// Chord routing (chord/routing.py): node descriptors, the circular interval
// test, and the finger table with its full sorted view of the ring.

module Routing {
  import opened Base

  /**
   * A ring member. The source compares two of them by `node_id` alone, so
   * the model compares `.id` wherever the source uses `==` on nodes.
   */
  datatype NodeInfo = NodeInfo(id: int, address: string)

  /**
   * `hash_address`: the SHA-1 digest of a string, as an integer, reduced
   * into the ring of `2^m` positions. The digest itself is a parameter.
   */
  function HashToRing(digest: string -> nat, s: string, m: nat): (h: nat)
    ensures h < Pow2(m)
  {
    digest(s) % Pow2(m)
  }

  // ---------------------------------------------------------------------
  // in_range

  /** `in_range`: is `x` on the arc from `start` to `end`, with the given ends? */
  predicate InRange(x: int, start: int, end: int, incStart: bool, incEnd: bool)
  {
    if start == end then true
    else if start < end then
      (if incStart then start <= x else start < x) && (if incEnd then x <= end else x < end)
    else
      (if incStart then x >= start else x > start) || (if incEnd then x <= end else x < end)
  }

  /** Clockwise distance from `a` to `b` on a ring of `size` positions. */
  function Dist(a: int, b: int, size: int): int
    requires size > 0
  {
    (b - a) % size
  }

  lemma DistOnRing(a: int, b: int, size: int)
    requires 0 < size && 0 <= a < size && 0 <= b < size
    ensures Dist(a, b, size) == if b >= a then b - a else b - a + size
  {
    var v := b - a;
    if v >= 0 {
      ModOnce(v, size);
    } else {
      assert v == (-1) * size + (v + size);
    }
  }

  /**
   * On a ring of `size` positions, `in_range` is the clockwise arc from
   * `start` to `end`: a point strictly inside is closer to `start`
   * (clockwise) than `end` is, and each end belongs only when its flag
   * says so. When `start == end` the arc is the whole ring.
   */
  lemma InRangeIsClockwiseArc(x: int, s: int, e: int, incS: bool, incE: bool, size: int)
    requires 0 < size && 0 <= x < size && 0 <= s < size && 0 <= e < size
    ensures s == e ==> InRange(x, s, e, incS, incE)
    ensures s != e ==> (InRange(x, s, e, incS, incE) <==>
      (x == s && incS) || (x == e && incE) || 0 < Dist(s, x, size) < Dist(s, e, size))
  {
    DistOnRing(s, x, size);
    DistOnRing(s, e, size);
  }

  // ---------------------------------------------------------------------
  // The sorted list of all known nodes.

  /** Ids strictly increase along the list, so no id occurs twice. */
  predicate SortedById(ns: seq<NodeInfo>)
  {
    forall i, j :: 0 <= i < j < |ns| ==> ns[i].id < ns[j].id
  }

  function Ids(ns: seq<NodeInfo>): set<int>
  {
    set y | y in ns :: y.id
  }

  /**
   * Puts `x` into a sorted list: in place of the entry with the same id,
   * or at the position its id sorts to.
   */
  function Upsert(s: seq<NodeInfo>, x: NodeInfo): (r: seq<NodeInfo>)
    requires SortedById(s)
    ensures SortedById(r)
    ensures forall y :: y in r <==> y == x || (y in s && y.id != x.id)
  {
    if s == [] then [x]
    else if x.id < s[0].id then [x] + s
    else if x.id == s[0].id then [x] + s[1..]
    else
      var rest := Upsert(s[1..], x);
      assert forall k :: 0 <= k < |rest| ==> rest[k] in rest;
      [s[0]] + rest
  }

  lemma UpsertIds(s: seq<NodeInfo>, x: NodeInfo)
    requires SortedById(s)
    ensures Ids(Upsert(s, x)) == Ids(s) + {x.id}
  {
    var r := Upsert(s, x);
    forall k | k in Ids(s) + {x.id} ensures k in Ids(r) {
      if k != x.id {
        var y :| y in s && y.id == k;
        assert y in r;
      }
    }
  }

  /** `set_all_nodes`' list: one node per id (the last given wins), sorted by id. */
  function Normalize(ns: seq<NodeInfo>): (r: seq<NodeInfo>)
    ensures SortedById(r)
  {
    if ns == [] then [] else Upsert(Normalize(ns[..|ns| - 1]), ns[|ns| - 1])
  }

  /** No later position of `ns` holds the id of position `i`. */
  predicate LastOfItsId(ns: seq<NodeInfo>, i: int)
    requires 0 <= i < |ns|
  {
    forall j :: i < j < |ns| ==> ns[j].id != ns[i].id
  }

  /** `y` is the last node `ns` gives with its id. */
  predicate GivenLast(ns: seq<NodeInfo>, y: NodeInfo)
  {
    exists i :: 0 <= i < |ns| && ns[i] == y && LastOfItsId(ns, i)
  }

  /** Appending `x` makes it the last of its id and demotes the earlier nodes with that id. */
  lemma GivenLastSnoc(init: seq<NodeInfo>, x: NodeInfo, y: NodeInfo)
    ensures GivenLast(init + [x], y) <==> y == x || (GivenLast(init, y) && y.id != x.id)
  {
    var ns := init + [x];
    if y == x {
      assert ns[|ns| - 1] == y && LastOfItsId(ns, |ns| - 1);
    } else if GivenLast(init, y) && y.id != x.id {
      var i :| 0 <= i < |init| && init[i] == y && LastOfItsId(init, i);
      assert ns[i] == y && LastOfItsId(ns, i);
    } else if GivenLast(ns, y) {
      var i :| 0 <= i < |ns| && ns[i] == y && LastOfItsId(ns, i);
      assert i < |init| && ns[|ns| - 1].id != y.id;
      forall j | i < j < |init| ensures init[j].id != init[i].id {
        assert ns[j] == init[j];
      }
      assert init[i] == y && LastOfItsId(init, i);
    }
  }

  /**
   * The list `set_all_nodes` stores holds, for every id it was given,
   * exactly the node given last with that id, and nothing else.
   */
  lemma {:induction false} NormalizeKeepsLastOfEachId(ns: seq<NodeInfo>)
    ensures forall y :: y in Normalize(ns) <==> GivenLast(ns, y)
  {
    if ns != [] {
      var init, x := ns[..|ns| - 1], ns[|ns| - 1];
      assert ns == init + [x];
      NormalizeKeepsLastOfEachId(init);
      forall y ensures y in Normalize(ns) <==> GivenLast(ns, y) {
        GivenLastSnoc(init, x, y);
      }
    }
  }

  /** `set_all_nodes` keeps every id it was given, and no other. */
  lemma {:induction false} NormalizeKeepsIds(ns: seq<NodeInfo>)
    ensures Ids(Normalize(ns)) == Ids(ns)
  {
    if ns != [] {
      var init, x := ns[..|ns| - 1], ns[|ns| - 1];
      assert ns == init + [x];
      NormalizeKeepsIds(init);
      UpsertIds(Normalize(init), x);
      assert Ids(ns) == Ids(init) + {x.id} by {
        forall k | k in Ids(ns) ensures k in Ids(init) + {x.id} {
          var y :| y in ns && y.id == k;
          if y != x { assert y in init; }
        }
      }
    }
  }

  /** The list comprehension of `remove_node`: every node except those with `id`. */
  function WithoutId(ns: seq<NodeInfo>, id: int): (r: seq<NodeInfo>)
    ensures forall y :: y in r <==> y in ns && y.id != id
    ensures SortedById(ns) ==> SortedById(r)
  {
    if ns == [] then []
    else
      var rest := WithoutId(ns[1..], id);
      SortedCons(ns);
      PrependSorted(ns[0], rest, ns[1..]);
      (if ns[0].id != id then [ns[0]] else []) + rest
  }

  /** The tail of a sorted list is sorted and lies above its head. */
  lemma SortedCons(ns: seq<NodeInfo>)
    requires ns != []
    ensures SortedById(ns) ==> SortedById(ns[1..]) && forall y :: y in ns[1..] ==> ns[0].id < y.id
  {
    if SortedById(ns) {
      forall y | y in ns[1..] ensures ns[0].id < y.id {
        var k :| 0 <= k < |ns[1..]| && ns[1..][k] == y;
        assert y == ns[k + 1];
      }
    }
  }

  /** A node below every node of a sorted list can go in front of it. */
  lemma PrependSorted(h: NodeInfo, rest: seq<NodeInfo>, tail: seq<NodeInfo>)
    ensures (SortedById(rest) && (forall y :: y in rest ==> y in tail) && (forall y :: y in tail ==> h.id < y.id)) ==>
      SortedById([h] + rest)
  {
    if SortedById(rest) && (forall y :: y in rest ==> y in tail) && (forall y :: y in tail ==> h.id < y.id) {
      forall i, j | 0 <= i < j < |[h] + rest| ensures ([h] + rest)[i].id < ([h] + rest)[j].id {
        assert ([h] + rest)[j] == rest[j - 1] && rest[j - 1] in rest;
        if i > 0 {
          assert ([h] + rest)[i] == rest[i - 1];
        }
      }
    }
  }

  /** Position of the first node whose id is at least `b`, or `|ns|` if none. */
  function FirstAtLeast(ns: seq<NodeInfo>, b: int): (i: nat)
    ensures i <= |ns|
    ensures forall j :: 0 <= j < i ==> ns[j].id < b
    ensures i < |ns| ==> ns[i].id >= b
  {
    if ns == [] then 0
    else if ns[0].id >= b then 0
    else 1 + FirstAtLeast(ns[1..], b)
  }

  /** Position of the node `find_successor_from_all(b)` returns. */
  function SuccessorIndex(ns: seq<NodeInfo>, b: int): (i: nat)
    requires ns != []
    ensures i < |ns|
  {
    var k := FirstAtLeast(ns, b);
    if k < |ns| then k else 0
  }

  /** `find_successor_from_all`: the first node with id >= b, else the first node. */
  function RingSuccessor(ns: seq<NodeInfo>, b: int): Option<NodeInfo>
  {
    if ns == [] then None else Some(ns[SuccessorIndex(ns, b)])
  }

  /**
   * In a sorted list, `find_successor_from_all(b)` is the node with the
   * smallest id at or after `b`, and when every id is below `b` it wraps
   * round to the node with the smallest id of all.
   */
  lemma RingSuccessorIsClockwiseFirst(ns: seq<NodeInfo>, b: int)
    requires SortedById(ns)
    ensures ns == [] <==> RingSuccessor(ns, b).None?
    ensures ns != [] ==> RingSuccessor(ns, b).value in ns
    ensures ns != [] && (exists i :: 0 <= i < |ns| && ns[i].id >= b) ==>
      RingSuccessor(ns, b).value.id >= b &&
      forall i :: 0 <= i < |ns| && ns[i].id >= b ==> RingSuccessor(ns, b).value.id <= ns[i].id
    ensures ns != [] && (forall i :: 0 <= i < |ns| ==> ns[i].id < b) ==>
      forall i :: 0 <= i < |ns| ==> RingSuccessor(ns, b).value.id <= ns[i].id
  {
  }

  /** The `get_n_successors` list: `n` nodes clockwise from the owner of `b`. */
  function NSuccessors(ns: seq<NodeInfo>, b: int, n: int): seq<NodeInfo>
  {
    if ns == [] || n <= 0 then []
    else
      var s := SuccessorIndex(ns, b);
      seq(Min(n, |ns|), i requires 0 <= i < Min(n, |ns|) => ns[RingIndex(s + i, |ns|)])
  }

  /** `v % len` for a position that has gone round the ring at most once. */
  function RingIndex(v: int, len: int): (p: nat)
    requires 0 < len && 0 <= v < 2 * len
    ensures p < len && p == v % len
    ensures p == if v < len then v else v - len
  {
    ModOnce(v, len);
    v % len
  }

  /** Entry `i` of the `get_n_successors` list, and the ring position `p` it comes from. */
  lemma NSuccessorsAt(ns: seq<NodeInfo>, b: int, n: int, i: int) returns (p: nat)
    requires ns != [] && n > 0 && 0 <= i < Min(n, |ns|)
    ensures |NSuccessors(ns, b, n)| == Min(n, |ns|)
    ensures p < |ns| && NSuccessors(ns, b, n)[i] == ns[p]
    ensures p == if SuccessorIndex(ns, b) + i < |ns| then SuccessorIndex(ns, b) + i
                 else SuccessorIndex(ns, b) + i - |ns|
  {
    p := RingIndex(SuccessorIndex(ns, b) + i, |ns|);
  }

  /** In a sorted list a node's id tells its position. */
  lemma IndexOfIdAt(ns: seq<NodeInfo>, p: int)
    requires SortedById(ns) && 0 <= p < |ns|
    ensures IndexOfId(ns, ns[p].id) == p
  {
  }

  /**
   * `get_n_successors` gives min(n, ring size) nodes of the ring, the
   * first of them the owner of `b`.
   */
  lemma NSuccessorsShape(ns: seq<NodeInfo>, b: int, n: int)
    ensures |NSuccessors(ns, b, n)| == if ns == [] || n <= 0 then 0 else Min(n, |ns|)
    ensures NSuccessors(ns, b, n) != [] ==> Some(NSuccessors(ns, b, n)[0]) == RingSuccessor(ns, b)
    ensures forall y :: y in NSuccessors(ns, b, n) ==> y in ns
  {
    if ns != [] && n > 0 {
      var r := NSuccessors(ns, b, n);
      var p0 := NSuccessorsAt(ns, b, n, 0);
      forall y | y in r ensures y in ns {
        var i :| 0 <= i < |r| && r[i] == y;
        var p := NSuccessorsAt(ns, b, n, i);
      }
    }
  }

  /** No node appears twice in the `get_n_successors` list. */
  lemma NSuccessorsDistinct(ns: seq<NodeInfo>, b: int, n: int)
    requires SortedById(ns)
    ensures forall i, j :: 0 <= i < j < |NSuccessors(ns, b, n)| ==>
      NSuccessors(ns, b, n)[i].id != NSuccessors(ns, b, n)[j].id
  {
    var r := NSuccessors(ns, b, n);
    forall i, j | 0 <= i < j < |r| ensures r[i].id != r[j].id {
      var p := NSuccessorsAt(ns, b, n, i);
      var q := NSuccessorsAt(ns, b, n, j);
    }
  }

  /** Each node of the `get_n_successors` list is the clockwise neighbour of the one before. */
  lemma NSuccessorsAreNeighbours(ns: seq<NodeInfo>, b: int, n: int)
    requires SortedById(ns)
    ensures forall i :: 0 <= i < |NSuccessors(ns, b, n)| - 1 ==>
      IndexOfId(ns, NSuccessors(ns, b, n)[i + 1].id) == NextIndex(IndexOfId(ns, NSuccessors(ns, b, n)[i].id), |ns|)
  {
    var r := NSuccessors(ns, b, n);
    forall i | 0 <= i < |r| - 1
      ensures IndexOfId(ns, r[i + 1].id) == NextIndex(IndexOfId(ns, r[i].id), |ns|)
    {
      NeighbourStep(ns, b, n, i);
    }
  }

  lemma NeighbourStep(ns: seq<NodeInfo>, b: int, n: int, i: int)
    requires SortedById(ns) && 0 <= i < |NSuccessors(ns, b, n)| - 1
    ensures IndexOfId(ns, NSuccessors(ns, b, n)[i + 1].id) ==
      NextIndex(IndexOfId(ns, NSuccessors(ns, b, n)[i].id), |ns|)
  {
    var p, q := NeighbourPositions(ns, b, n, i);
    IndexStep(ns, p, q);
  }

  /** Consecutive entries of the `get_n_successors` list sit at consecutive ring positions. */
  lemma NeighbourPositions(ns: seq<NodeInfo>, b: int, n: int, i: int) returns (p: nat, q: nat)
    requires 0 <= i < |NSuccessors(ns, b, n)| - 1
    ensures p < |ns| && q < |ns| && q == NextIndex(p, |ns|)
    ensures NSuccessors(ns, b, n)[i] == ns[p] && NSuccessors(ns, b, n)[i + 1] == ns[q]
  {
    assert ns != [] && n > 0 && i + 1 < Min(n, |ns|);
    p := NSuccessorsAt(ns, b, n, i);
    q := NSuccessorsAt(ns, b, n, i + 1);
    var s0 := SuccessorIndex(ns, b);
    if s0 + i + 1 < |ns| {
      assert p == s0 + i && q == p + 1;
    } else if s0 + i + 1 == |ns| {
      assert p == |ns| - 1 && q == 0;
    } else {
      assert p == s0 + i - |ns| && q == p + 1;
    }
  }

  lemma IndexStep(ns: seq<NodeInfo>, p: int, q: int)
    requires SortedById(ns) && 0 <= p < |ns| && 0 <= q < |ns|
    requires q == NextIndex(p, |ns|)
    ensures IndexOfId(ns, ns[q].id) == NextIndex(IndexOfId(ns, ns[p].id), |ns|)
  {
    IndexOfIdAt(ns, p);
    IndexOfIdAt(ns, q);
  }

  /** The position after `p` on a ring of `len` positions: `(p + 1) % len`. */
  function NextIndex(p: int, len: int): (q: int)
    ensures 0 <= p < len ==> 0 <= q < len && q == (p + 1) % len
  {
    if 0 <= p < len then ModOnce(p + 1, len); (if p + 1 < len then p + 1 else 0)
    else 0
  }


  /** The finger `find_closest_preceding_finger` returns: the highest one on (self, id]. */
  function ClosestPreceding(fs: seq<Option<NodeInfo>>, self: int, id: int): Option<NodeInfo>
  {
    if fs == [] then None
    else if fs[|fs| - 1].Some? && InRange(fs[|fs| - 1].value.id, self, id, false, true) then fs[|fs| - 1]
    else ClosestPreceding(fs[..|fs| - 1], self, id)
  }

  /** A finger slot holds a node on the arc (self, id]. */
  predicate Precedes(f: Option<NodeInfo>, self: int, id: int)
  {
    f.Some? && InRange(f.value.id, self, id, false, true)
  }

  /**
   * The closest preceding finger is the set finger of highest index whose
   * node lies on (self, id]; there is none exactly when no slot qualifies.
   */
  lemma {:induction false} ClosestPrecedingIsHighest(fs: seq<Option<NodeInfo>>, self: int, id: int)
    ensures ClosestPreceding(fs, self, id).None? <==>
      forall i :: 0 <= i < |fs| ==> !Precedes(fs[i], self, id)
    ensures ClosestPreceding(fs, self, id).Some? ==>
      exists i :: 0 <= i < |fs| && fs[i] == ClosestPreceding(fs, self, id) && Precedes(fs[i], self, id) &&
        forall j :: i < j < |fs| ==> !Precedes(fs[j], self, id)
  {
    if fs != [] {
      var init := fs[..|fs| - 1];
      ClosestPrecedingIsHighest(init, self, id);
      if !Precedes(fs[|fs| - 1], self, id) {
        if ClosestPreceding(init, self, id).Some? {
          var i :| 0 <= i < |init| && init[i] == ClosestPreceding(init, self, id) &&
            Precedes(init[i], self, id) && forall j :: i < j < |init| ==> !Precedes(init[j], self, id);
          assert fs[i] == init[i];
        }
      }
    }
  }

  // ---------------------------------------------------------------------
  // The finger table.

  /**
   * `FingerTable`: `m` finger slots (slot 0 is the successor), the start
   * of each finger's interval, and every known node sorted by id.
   */
  class FingerTable {
    const nodeId: int
    const m: nat
    const starts: seq<int>
    const fingers: array<Option<NodeInfo>>
    var allNodes: seq<NodeInfo>

    ghost predicate Valid()
      reads this
    {
      && m >= 1
      && fingers.Length == m
      && |starts| == m
      && (forall i :: 0 <= i < m ==> starts[i] == (nodeId + Pow2(i)) % Pow2(m))
      && SortedById(allNodes)
    }

    /** Slot 0. */
    function Successor(): Option<NodeInfo>
      reads this, fingers
      requires Valid()
    {
      fingers[0]
    }

    constructor (nodeId: int, m: nat)
      requires m >= 1
      ensures Valid() && this.nodeId == nodeId && this.m == m
      ensures fresh(fingers) && forall i :: 0 <= i < m ==> fingers[i].None?
      ensures allNodes == []
    {
      this.nodeId := nodeId;
      this.m := m;
      this.starts := seq(m, i requires 0 <= i => (nodeId + Pow2(i)) % Pow2(m));
      this.fingers := new Option<NodeInfo>[m](_ => None);
      this.allNodes := [];
    }

    method GetFinger(index: int) returns (r: Option<NodeInfo>)
      requires Valid()
      ensures 0 <= index < m ==> r == fingers[index]
      ensures !(0 <= index < m) ==> r.None?
    {
      if 0 <= index < m {
        r := fingers[index];
      } else {
        r := None;
      }
    }

    method SetFinger(index: int, node: NodeInfo)
      requires Valid()
      modifies fingers
      ensures 0 <= index < m ==> fingers[..] == old(fingers[..])[index := Some(node)]
      ensures !(0 <= index < m) ==> fingers[..] == old(fingers[..])
    {
      if 0 <= index < m {
        fingers[index] := Some(node);
      }
    }

    /** `get_start`: the start of finger `index`'s interval, which is on the ring; -1 off the table. */
    method GetStart(index: int) returns (r: int)
      requires Valid()
      ensures 0 <= index < m ==> r == (nodeId + Pow2(index)) % Pow2(m) && 0 <= r < Pow2(m)
      ensures !(0 <= index < m) ==> r == -1
    {
      if 0 <= index < m {
        r := starts[index];
      } else {
        r := -1;
      }
    }

    method FindClosestPrecedingFinger(identifier: int) returns (r: Option<NodeInfo>)
      requires Valid()
      ensures r == ClosestPreceding(fingers[..], nodeId, identifier)
    {
      var i := m;
      assert fingers[..] == fingers[..m];
      while i > 0
        invariant 0 <= i <= m
        invariant ClosestPreceding(fingers[..], nodeId, identifier) ==
                  ClosestPreceding(fingers[..i], nodeId, identifier)
      {
        i := i - 1;
        var finger := fingers[i];
        assert fingers[..i + 1][..i] == fingers[..i];
        if finger.Some? && InRange(finger.value.id, nodeId, identifier, false, true) {
          return finger;
        }
      }
      r := None;
    }

    method SetSuccessor(node: Option<NodeInfo>)
      requires Valid()
      modifies fingers
      ensures fingers[..] == old(fingers[..])[0 := node]
    {
      fingers[0] := node;
    }

    method FindSuccessorFromAll(identifier: int) returns (r: Option<NodeInfo>)
      requires Valid()
      ensures r == RingSuccessor(allNodes, identifier)
    {
      if |allNodes| == 0 {
        return None;
      }
      var i := 0;
      while i < |allNodes|
        invariant 0 <= i <= |allNodes|
        invariant forall j :: 0 <= j < i ==> allNodes[j].id < identifier
      {
        if allNodes[i].id >= identifier {
          return Some(allNodes[i]);
        }
        i := i + 1;
      }
      return Some(allNodes[0]);
    }

    /**
     * `set_all_nodes`. The successor scan looks for the first id greater
     * than this node's, which for integer ids is the first at least one more.
     */
    method SetAllNodes(nodes: seq<NodeInfo>)
      requires Valid()
      modifies this, fingers
      ensures Valid()
      ensures allNodes == Normalize(nodes)
      ensures allNodes == [] ==> fingers[..] == old(fingers[..])
      ensures allNodes != [] ==> fingers[..] == old(fingers[..])[0 := RingSuccessor(allNodes, nodeId + 1)]
    {
      allNodes := Normalize(nodes);
      if allNodes != [] {
        var s := FindSuccessorFromAll(nodeId + 1);
        SetSuccessor(s);
      }
    }

    /**
     * `add_node` as written: a known id keeps its place in the view with the
     * new address; a new node is inserted in id order and becomes the
     * successor under the source's adoption rule (see `AdoptsAsWritten`).
     */
    method AddNode(node: NodeInfo)
      requires Valid()
      modifies this, fingers
      ensures Valid()
      ensures allNodes == Upsert(old(allNodes), node)
      ensures node.id in Ids(old(allNodes)) ==> fingers[..] == old(fingers[..])
      ensures node.id !in Ids(old(allNodes)) && AdoptsAsWritten(old(fingers[0]), nodeId, node) ==>
        fingers[..] == old(fingers[..])[0 := Some(node)]
      ensures node.id !in Ids(old(allNodes)) && !AdoptsAsWritten(old(fingers[0]), nodeId, node) ==>
        fingers[..] == old(fingers[..])
    {
      var known := UpdateKnown(node);
      if !known {
        InsertNew(node, AdoptsAsWritten(fingers[0], nodeId, node));
      }
    }

    /**
     * `add_node` with the corrected adoption rule (see `Adopts`): a node
     * whose successor is the ring successor of its view keeps it so when a
     * new node is added.
     */
    method AddNodeChecked(node: NodeInfo)
      requires Valid()
      modifies this, fingers
      ensures Valid()
      ensures allNodes == Upsert(old(allNodes), node)
      ensures node.id in Ids(old(allNodes)) ==> fingers[..] == old(fingers[..])
      ensures node.id !in Ids(old(allNodes)) && Adopts(old(fingers[0]), nodeId, node) ==>
        fingers[..] == old(fingers[..])[0 := Some(node)]
      ensures node.id !in Ids(old(allNodes)) && !Adopts(old(fingers[0]), nodeId, node) ==>
        fingers[..] == old(fingers[..])
      ensures node.id !in Ids(old(allNodes)) ==> KeepsRingSuccessor(old(allNodes), nodeId, node, old(fingers[0]), fingers[0])
    {
      var known := UpdateKnown(node);
      if !known {
        InsertNewChecked(node);
      } else {
        assert node.id in Ids(old(allNodes));
      }
    }

    /** The second half of `add_node` under the corrected rule. */
    method InsertNewChecked(node: NodeInfo)
      requires Valid() && node.id !in Ids(allNodes)
      modifies this, fingers
      ensures Valid()
      ensures allNodes == Upsert(old(allNodes), node)
      ensures fingers[..] == if Adopts(old(fingers[0]), nodeId, node) then old(fingers[..])[0 := Some(node)] else old(fingers[..])
      ensures KeepsRingSuccessor(old(allNodes), nodeId, node, old(fingers[0]), fingers[0])
    {
      ghost var ns, f0 := allNodes, fingers[0];
      var adopt := Adopts(fingers[0], nodeId, node);
      ghost var next := if adopt then Some(node) else f0;
      AdoptedIsRingSuccessor(ns, nodeId, node, f0, next);
      InsertNew(node, adopt);
    }

    /** The second half of `add_node`: a new node joins the view and, if `adopt`, becomes the successor. */
    method InsertNew(node: NodeInfo, adopt: bool)
      requires Valid() && node.id !in Ids(allNodes)
      modifies this, fingers
      ensures Valid()
      ensures allNodes == Upsert(old(allNodes), node)
      ensures fingers[..] == if adopt then old(fingers[..])[0 := Some(node)] else old(fingers[..])
      ensures fingers[0] == if adopt then Some(node) else old(fingers[0])
    {
      allNodes := Upsert(allNodes, node);
      if adopt {
        SetSuccessor(Some(node));
      }
    }

    /** The first half of `add_node`: a node with a known id replaces the entry holding that id. */
    method UpdateKnown(node: NodeInfo) returns (known: bool)
      requires Valid()
      modifies this
      ensures Valid()
      ensures known <==> node.id in Ids(old(allNodes))
      ensures known ==> allNodes == Upsert(old(allNodes), node)
      ensures !known ==> allNodes == old(allNodes)
    {
      var i := 0;
      while i < |allNodes|
        invariant 0 <= i <= |allNodes|
        invariant forall j :: 0 <= j < i ==> allNodes[j].id != node.id
      {
        if allNodes[i].id == node.id {
          UpsertReplaces(allNodes, i, node);
          allNodes := allNodes[i := node];
          return true;
        }
        i := i + 1;
      }
      return false;
    }

    /**
     * `remove_node`: forgets every node with `id`, picks a new successor
     * when the old one was that node, and clears the fingers that held it.
     * It reports success whether or not the node was known.
     */
    method RemoveNode(id: int) returns (removed: bool)
      requires Valid()
      modifies this, fingers
      ensures Valid() && removed
      ensures allNodes == WithoutId(old(allNodes), id)
      ensures fingers[0] == if Holds(old(fingers[0]), id) then RingSuccessor(allNodes, nodeId + 1) else old(fingers[0])
      ensures forall i :: 1 <= i < m ==> fingers[i] == Forgotten(old(fingers[i]), id)
    {
      allNodes := WithoutId(allNodes, id);
      ReplaceRemovedSuccessor(id);
      ForgetFingers(id);
      removed := true;
    }

    /** The successor part of `remove_node`, once the node list no longer has `id`. */
    method ReplaceRemovedSuccessor(id: int)
      requires Valid() && forall y :: y in allNodes ==> y.id != id
      modifies fingers
      ensures fingers[..] == old(fingers[..])[0 := if Holds(old(fingers[0]), id)
                                                    then RingSuccessor(allNodes, nodeId + 1) else old(fingers[0])]
      ensures !Holds(fingers[0], id)
    {
      var successor := fingers[0];
      if successor.Some? && successor.value.id == id {
        if allNodes != [] {
          var s := FindSuccessorFromAll(nodeId + 1);
          RingSuccessorIsClockwiseFirst(allNodes, nodeId + 1);
          SetSuccessor(s);
        } else {
          SetSuccessor(None);
        }
      }
    }

    /** The finger loop of `remove_node`: every slot holding `id` is cleared. */
    method ForgetFingers(id: int)
      requires Valid()
      modifies fingers
      ensures forall i :: 0 <= i < m ==> fingers[i] == Forgotten(old(fingers[i]), id)
    {
      var i := 0;
      while i < m
        invariant 0 <= i <= m
        invariant forall j :: 0 <= j < i ==> fingers[j] == Forgotten(old(fingers[j]), id)
        invariant forall j :: i <= j < m ==> fingers[j] == old(fingers[j])
      {
        if fingers[i].Some? && fingers[i].value.id == id {
          fingers[i] := None;
        }
        i := i + 1;
      }
    }

    method GetNSuccessors(identifier: int, n: int) returns (r: seq<NodeInfo>)
      requires Valid()
      ensures r == NSuccessors(allNodes, identifier, n)
    {
      if |allNodes| == 0 || n <= 0 {
        return [];
      }
      var responsible := FindSuccessorFromAll(identifier);
      var start := IndexOfId(allNodes, responsible.value.id);
      assert start == SuccessorIndex(allNodes, identifier);
      r := [];
      var count := Min(n, |allNodes|);
      var i := 0;
      while i < count
        invariant 0 <= i <= count
        invariant |r| == i
        invariant forall j :: 0 <= j < i ==> r[j] == allNodes[RingIndex(start + j, |allNodes|)]
      {
        r := r + [allNodes[(start + i) % |allNodes|]];
        i := i + 1;
      }
    }
  }

  /** Position of the first node with id `id`, or `|ns|` (`list.index` by id). */
  function IndexOfId(ns: seq<NodeInfo>, id: int): (i: nat)
    ensures i <= |ns|
    ensures i < |ns| ==> ns[i].id == id
    ensures forall j :: 0 <= j < i ==> ns[j].id != id
  {
    if ns == [] then 0
    else if ns[0].id == id then 0
    else 1 + IndexOfId(ns[1..], id)
  }

  /** Re-adding a known id only swaps in the new descriptor, in place. */
  lemma {:induction false} UpsertReplaces(s: seq<NodeInfo>, i: int, x: NodeInfo)
    requires SortedById(s) && 0 <= i < |s| && s[i].id == x.id
    ensures Upsert(s, x) == s[i := x]
  {
    if i == 0 {
      UpdateCons(s, 0, x);
    } else {
      assert s[0].id < s[i].id;
      UpsertAbove(s, x);
      UpsertReplaces(s[1..], i - 1, x);
      UpdateCons(s, i, x);
    }
  }

  /** Updating position `i` of a list is updating its head or its tail. */
  lemma UpdateCons<T>(s: seq<T>, i: int, x: T)
    requires 0 <= i < |s|
    ensures i == 0 ==> s[i := x] == [x] + s[1..]
    ensures i > 0 ==> s[i := x] == [s[0]] + s[1..][i - 1 := x]
  {
    if i == 0 {
      assert s[i := x] == [x] + s[1..];
    } else {
      assert s[i := x] == [s[0]] + s[1..][i - 1 := x];
    }
  }

  /** A node above the head goes into the tail. */
  lemma UpsertAbove(s: seq<NodeInfo>, x: NodeInfo)
    requires SortedById(s) && s != [] && s[0].id < x.id
    ensures SortedById(s[1..])
    ensures Upsert(s, x) == [s[0]] + Upsert(s[1..], x)
  {
    SortedCons(s);
  }

  /** The finger slot `f` holds the node with `id`. */
  predicate Holds(f: Option<NodeInfo>, id: int)
  {
    f.Some? && f.value.id == id
  }

  /** A finger slot once the node with `id` is forgotten. */
  function Forgotten(f: Option<NodeInfo>, id: int): (r: Option<NodeInfo>)
    ensures !Holds(r, id)
    ensures !Holds(f, id) ==> r == f
  {
    if Holds(f, id) then None else f
  }

  /**
   * The successor update of `add_node` for a node not yet known: take it
   * when there is no successor, or when it lies strictly between this node
   * and its successor going clockwise.
   */
  predicate Adopts(successor: Option<NodeInfo>, self: int, node: NodeInfo)
  {
    successor.None? || InRange(node.id, self, successor.value.id, false, false)
  }

  /**
   * The successor update of `add_node` as the source writes it: take the
   * new node when there is no successor, or when its id is above this
   * node's and either below the successor's or the successor has wrapped
   * round to an id at or below this node's.
   */
  predicate AdoptsAsWritten(successor: Option<NodeInfo>, self: int, node: NodeInfo)
  {
    successor.None? || (node.id > self && (node.id < successor.value.id || successor.value.id <= self))
  }

  /**
   * With nodes 10 and 50 known at node 50, the successor is 10 (wrapping
   * round). Adding node 5 puts it between 50 and 10 clockwise, so it is
   * the new clockwise-first node after 50, yet the rule as written keeps 10.
   */
  lemma AddNodeAsWrittenMissesWrappedNode()
    ensures var ns := [NodeInfo(10, "b"), NodeInfo(50, "a")];
      && RingSuccessor(ns, 51) == Some(NodeInfo(10, "b"))
      && !AdoptsAsWritten(Some(NodeInfo(10, "b")), 50, NodeInfo(5, "c"))
      && RingSuccessor(Upsert(ns, NodeInfo(5, "c")), 51) == Some(NodeInfo(5, "c"))
  {
    var ns := [NodeInfo(10, "b"), NodeInfo(50, "a")];
    assert Upsert(ns, NodeInfo(5, "c")) == [NodeInfo(5, "c")] + ns;
  }

  /**
   * A lone node 50, whose successor is itself after `create_ring`, adds
   * node 10. Node 10 is now the clockwise-first node after 50, yet the rule
   * as written keeps 50, since 10 is not above 50.
   */
  lemma AddNodeAsWrittenKeepsLoneSelf()
    ensures var ns := [NodeInfo(50, "a")];
      && RingSuccessor(ns, 51) == Some(NodeInfo(50, "a"))
      && !AdoptsAsWritten(Some(NodeInfo(50, "a")), 50, NodeInfo(10, "b"))
      && Adopts(Some(NodeInfo(50, "a")), 50, NodeInfo(10, "b"))
      && RingSuccessor(Upsert(ns, NodeInfo(10, "b")), 51) == Some(NodeInfo(10, "b"))
  {
    var ns := [NodeInfo(50, "a")];
    assert Upsert(ns, NodeInfo(10, "b")) == [NodeInfo(10, "b")] + ns;
  }

  /** A node of a sorted list that is clockwise-first from `b` is what `find_successor_from_all(b)` returns. */
  lemma RingSuccessorIs(ns: seq<NodeInfo>, b: int, y: NodeInfo)
    requires SortedById(ns) && y in ns
    requires (y.id >= b && forall z :: z in ns && z.id >= b ==> z.id >= y.id) ||
             (forall z :: z in ns ==> z.id < b && z.id >= y.id)
    ensures RingSuccessor(ns, b) == Some(y)
  {
    RingSuccessorIsClockwiseFirst(ns, b);
    var i :| 0 <= i < |ns| && ns[i] == y;
    var k := SuccessorIndex(ns, b);
    assert ns[k].id == ns[i].id by {
      if y.id >= b {
        assert ns[k].id >= b && ns[k].id <= ns[i].id;
        assert ns[k] in ns;
      } else {
        assert ns[k] in ns;
      }
    }
  }

  /**
   * With the corrected rule, a node that keeps its successor equal to
   * `find_successor_from_all(self + 1)`, which is what `set_all_nodes`
   * establishes, still has it so after `add_node` of a new node.
   */
  lemma AdoptsKeepsRingSuccessor(ns: seq<NodeInfo>, self: int, node: NodeInfo)
    requires SortedById(ns) && node.id !in Ids(ns)
    ensures var succ := RingSuccessor(ns, self + 1);
      RingSuccessor(Upsert(ns, node), self + 1) == if Adopts(succ, self, node) then Some(node) else succ
  {
    var succ := RingSuccessor(ns, self + 1);
    var r := Upsert(ns, node);
    var b := self + 1;
    RingSuccessorIsClockwiseFirst(ns, b);
    assert forall z :: z in ns ==> z.id != node.id;
    if succ.None? {
      RingSuccessorIs(r, b, node);
    } else {
      var s := succ.value;
      assert s in ns;
      assert forall z :: z in ns && z.id >= b ==> z.id >= s.id by {
        forall z | z in ns && z.id >= b ensures z.id >= s.id {
          var i :| 0 <= i < |ns| && ns[i] == z;
        }
      }
      var wrapped := forall z :: z in ns ==> z.id < b;
      if !wrapped {
        var i :| 0 <= i < |ns| && ns[i].id >= b;
        assert s.id >= b;
      } else {
        forall z | z in ns ensures z.id >= s.id {
          var i :| 0 <= i < |ns| && ns[i] == z;
        }
      }
      if Adopts(succ, self, node) {
        RingSuccessorIs(r, b, node);
      } else {
        RingSuccessorIs(r, b, s);
      }
    }
  }
  /**
   * A successor `f` that is the ring successor of the view `ns` becomes,
   * once `node` is added, a successor `g` that is the ring successor of
   * the new view.
   */
  ghost predicate KeepsRingSuccessor(ns: seq<NodeInfo>, self: int, node: NodeInfo, f: Option<NodeInfo>, g: Option<NodeInfo>)
    requires SortedById(ns)
  {
    f == RingSuccessor(ns, self + 1) ==> g == RingSuccessor(Upsert(ns, node), self + 1)
  }

  /** `AdoptsKeepsRingSuccessor` for the successor `add_node` leaves in slot 0. */
  lemma AdoptedIsRingSuccessor(ns: seq<NodeInfo>, self: int, node: NodeInfo, f: Option<NodeInfo>, g: Option<NodeInfo>)
    requires SortedById(ns) && node.id !in Ids(ns)
    requires g == if Adopts(f, self, node) then Some(node) else f
    ensures KeepsRingSuccessor(ns, self, node, f, g)
  {
    AdoptsKeepsRingSuccessor(ns, self, node);
  }

  /**
   * The keys a node owns are the arc from its predecessor: when `q` is
   * the ring successor of `p` in the view `ns`, an identifier lies on
   * (p, q] exactly when `find_successor_from_all` gives `q` for it.
   */
  lemma OwnedArc(ns: seq<NodeInfo>, p: NodeInfo, q: NodeInfo, h: int)
    requires SortedById(ns) && p in ns && q in ns
    requires RingSuccessor(ns, p.id + 1) == Some(q)
    ensures InRange(h, p.id, q.id, false, true) <==> RingSuccessor(ns, h) == Some(q)
  {
    SuccessorGap(ns, p, q);
    RingSuccessorIsClockwiseFirst(ns, h);
    var r := RingSuccessor(ns, h).value;
    if InRange(h, p.id, q.id, false, true) {
      RingSuccessorIs(ns, h, q);
    } else {
      assert p.id != q.id;
      var i :| 0 <= i < |ns| && ns[i] == p;
      if p.id >= h {
        assert r.id <= p.id;
      }
      assert r.id != q.id;
    }
  }

  /**
   * No node lies strictly between `p` and its ring successor `q`: above
   * `p` nothing comes before `q`, and when the successor wraps round, `q`
   * is the smallest id and `p` the largest.
   */
  lemma SuccessorGap(ns: seq<NodeInfo>, p: NodeInfo, q: NodeInfo)
    requires SortedById(ns) && p in ns
    requires RingSuccessor(ns, p.id + 1) == Some(q)
    ensures q.id > p.id ==> forall z :: z in ns && z.id > p.id ==> z.id >= q.id
    ensures q.id <= p.id ==> forall z :: z in ns ==> q.id <= z.id <= p.id
  {
    RingSuccessorIsClockwiseFirst(ns, p.id + 1);
    if exists z :: z in ns && z.id >= p.id + 1 {
      var z :| z in ns && z.id >= p.id + 1;
      var i :| 0 <= i < |ns| && ns[i] == z;
      forall y | y in ns && y.id > p.id ensures y.id >= q.id {
        var j :| 0 <= j < |ns| && ns[j] == y;
      }
    } else {
      forall z | z in ns ensures q.id <= z.id <= p.id {
        var i :| 0 <= i < |ns| && ns[i] == z;
      }
    }
  }
}

