// The client's own idea of which node holds a key (client/cli.py): the
// node list it cached from the ring, sorted by id, and the first node at
// or after the key's position, wrapping round to the smallest id.

module Client {
  import opened Base
  import opened Routing

  /** The cached `ring_info`; `ringNodes` is `None` when the entry is missing. */
  datatype RingInfo = RingInfo(ringNodes: Option<seq<NodeInfo>>)

  /**
   * `a` comes no later than `b` in the scan for `h`: nodes at or after `h`
   * come first, then the rest, each group by ascending id.
   */
  predicate NoLater(a: NodeInfo, b: NodeInfo, h: int)
  {
    (a.id >= h && b.id < h) || ((a.id >= h) == (b.id >= h) && a.id <= b.id)
  }

  /**
   * The node the scan of the sorted list stops at. Sorting is stable, so of
   * several nodes with the same id the one listed first wins.
   */
  function FirstInScan(nodes: seq<NodeInfo>, h: int): (r: Option<NodeInfo>)
  {
    if nodes == [] then None
    else
      var rest := FirstInScan(nodes[1..], h);
      if rest.None? || NoLater(nodes[0], rest.value, h) then Some(nodes[0]) else rest
  }

  /** The scan stops at a listed node that comes no later than any other. */
  lemma {:induction false} FirstInScanSpec(nodes: seq<NodeInfo>, h: int)
    ensures FirstInScan(nodes, h).None? <==> nodes == []
    ensures FirstInScan(nodes, h).Some? ==>
      FirstInScan(nodes, h).value in nodes &&
      forall x :: x in nodes ==> NoLater(FirstInScan(nodes, h).value, x, h)
  {
    if nodes != [] {
      FirstInScanSpec(nodes[1..], h);
      forall x | x in nodes ensures x == nodes[0] || x in nodes[1..] {
        var i :| 0 <= i < |nodes| && nodes[i] == x;
        if i > 0 {
          assert nodes[1..][i - 1] == x;
        }
      }
    }
  }

  /**
   * `get_responsible_node`: `None` without ring information, without a
   * node list or with an empty one; otherwise the node with the smallest id
   * at or after `keyHash`, or failing that the smallest id.
   */
  function GetResponsibleNode(info: Option<RingInfo>, keyHash: int): Option<NodeInfo>
  {
    if info.None? || info.value.ringNodes.None? || info.value.ringNodes.value == [] then None
    else FirstInScan(info.value.ringNodes.value, keyHash)
  }

  /**
   * The answer is `None` exactly when there is no node to choose from; it
   * is always one of the cached nodes, the one with the smallest id at or
   * after the key when there is one, and the one with the smallest id
   * overall when there is not.
   */
  lemma GetResponsibleNodeSpec(info: Option<RingInfo>, keyHash: int)
    ensures GetResponsibleNode(info, keyHash).None? <==>
      info.None? || info.value.ringNodes.None? || info.value.ringNodes.value == []
    ensures GetResponsibleNode(info, keyHash).Some? ==>
      var nodes := info.value.ringNodes.value;
      var r := GetResponsibleNode(info, keyHash).value;
      r in nodes &&
      ((exists x :: x in nodes && x.id >= keyHash) ==>
        r.id >= keyHash && forall x :: x in nodes && x.id >= keyHash ==> r.id <= x.id) &&
      ((forall x :: x in nodes ==> x.id < keyHash) ==>
        forall x :: x in nodes ==> r.id <= x.id)
  {
    if info.Some? && info.value.ringNodes.Some? && info.value.ringNodes.value != [] {
      FirstInScanSpec(info.value.ringNodes.value, keyHash);
    }
  }

  /**
   * On a list already sorted by id the client picks the node the ring's
   * own successor lookup names.
   */
  lemma ClientAgreesWithRing(nodes: seq<NodeInfo>, keyHash: int)
    requires SortedById(nodes) && nodes != []
    ensures GetResponsibleNode(Some(RingInfo(Some(nodes))), keyHash) == RingSuccessor(nodes, keyHash)
  {
    FirstInScanSpec(nodes, keyHash);
    var r := FirstInScan(nodes, keyHash).value;
    RingSuccessorIs(nodes, keyHash, r);
  }
}
