/** The compile-time reference graph (src/refgraph.c): nodes for heap objects, found by id
    through an index table. */
module RefGraph {
  import opened Wrappers
  import opened Words

  const INITIAL_INDEX_CAPACITY: nat := 64

  type NodeId = nat

  /** NODE_ID_INVALID. */
  const INVALID: NodeId := 0

  const MAX_SLOTS: nat := 256

  /** An allocation slot, or -1. */
  type SlotId = s: int | -1 <= s < MAX_SLOTS

  datatype RefNode = RefNode(nodeId: NodeId, objectType: nat, slotId: SlotId, isEscaped: bool, children: seq<NodeId>)

  /** Ids are handed out from 1 in the order of the nodes. */
  predicate Numbered(nodes: seq<RefNode>) {
    forall i | 0 <= i < |nodes| :: nodes[i].nodeId == i + 1
  }

  predicate Known(nodes: seq<RefNode>, id: NodeId) {
    1 <= id <= |nodes|
  }

  /** Where ref_graph_get_node looks. An id below the capacity of the index that was never
      handed out leads to the first node. */
  function FoundAt(nodes: seq<RefNode>, capacity: nat, id: NodeId): Option<nat> {
    if id == INVALID || id >= capacity || nodes == [] then None
    else if Known(nodes, id) then Some(id - 1)
    else Some(0)
  }

  class Graph {
    var nodes: seq<RefNode>
    var nextNodeId: NodeId
    var nodeIndex: array<nat>

    /** The index table maps every id handed out to its node and everything else to 0. */
    ghost predicate Valid()
      reads this, nodeIndex
    {
      && Numbered(nodes) && nextNodeId == |nodes| + 1 && 1 <= nextNodeId <= nodeIndex.Length
      && forall id | 0 <= id < nodeIndex.Length :: nodeIndex[id] == if Known(nodes, id) then id - 1 else 0
    }

    /** ref_graph_create. */
    constructor ()
      ensures Valid() && fresh(nodeIndex) && nodes == [] && nodeIndex.Length == INITIAL_INDEX_CAPACITY
    {
      nodes, nextNodeId := [], 1;
      nodeIndex := new nat[INITIAL_INDEX_CAPACITY](_ => 0);
    }

    /** ref_graph_clear. */
    method Clear()
      requires Valid()
      modifies this, nodeIndex
      ensures Valid() && nodes == [] && nodeIndex == old(nodeIndex)
    {
      nodes, nextNodeId := [], 1;
      for i := 0 to nodeIndex.Length
        invariant forall id | 0 <= id < i :: nodeIndex[id] == 0
        modifies nodeIndex
      {
        nodeIndex[i] := 0;
      }
    }

    /** The index table is doubled until the new id fits. */
    method GrowIndex(id: NodeId)
      requires nodeIndex.Length > 0
      modifies this`nodeIndex
      ensures id < nodeIndex.Length && old(nodeIndex.Length) <= nodeIndex.Length
      ensures if id < old(nodeIndex.Length) then nodeIndex == old(nodeIndex) else nodeIndex.Length <= 2 * id
      ensures exists doublings: nat :: nodeIndex.Length == old(nodeIndex.Length) * Pow2(doublings)
      ensures nodeIndex == old(nodeIndex) || fresh(nodeIndex)
      ensures forall i | 0 <= i < nodeIndex.Length :: nodeIndex[i] == if i < old(nodeIndex).Length then old(nodeIndex[i]) else 0
    {
      ghost var doublings: nat := 0;
      assert nodeIndex.Length == nodeIndex.Length * Pow2(doublings);
      if id >= nodeIndex.Length {
        var capacity := nodeIndex.Length * 2;
        doublings := 1;
        assert Pow2(1) == 2;
        while id >= capacity
          invariant nodeIndex.Length <= capacity <= 2 * id
          invariant capacity == nodeIndex.Length * Pow2(doublings)
          decreases id - capacity
        {
          capacity, doublings := capacity * 2, doublings + 1;
          assert nodeIndex.Length * Pow2(doublings) == nodeIndex.Length * Pow2(doublings - 1) * 2;
        }
        var was := nodeIndex;
        nodeIndex := new nat[capacity](i reads was => if 0 <= i < was.Length then was[i] else 0);
      }
    }

    /** ref_graph_alloc_node. */
    method AllocNode(objectType: nat, slotId: SlotId) returns (id: NodeId)
      requires Valid()
      modifies this, nodeIndex
      ensures Valid() && id == |old(nodes)| + 1
      ensures nodes == old(nodes) + [RefNode(id, objectType, slotId, false, [])]
      ensures nodeIndex == old(nodeIndex) || fresh(nodeIndex)
    {
      id := nextNodeId;
      nextNodeId := nextNodeId + 1;
      GrowIndex(id);
      nodeIndex[id] := |nodes|;
      nodes := nodes + [RefNode(id, objectType, slotId, false, [])];
    }

    /** ref_graph_get_node, as a position in the node array. */
    method GetNode(id: NodeId) returns (at: Option<nat>)
      requires Valid()
      ensures at == FoundAt(nodes, nodeIndex.Length, id)
      ensures at.Some? ==> at.value < |nodes|
    {
      if id == INVALID || id >= nodeIndex.Length {
        return None;
      }
      var idx := nodeIndex[id];
      if idx >= |nodes| {
        return None;
      }
      return Some(idx);
    }

    /** ref_graph_add_child. */
    method AddChild(parent: NodeId, child: NodeId)
      requires Valid()
      modifies this`nodes
      ensures Valid()
      ensures |nodes| == |old(nodes)|
      ensures FoundAt(old(nodes), nodeIndex.Length, parent).None? ==> nodes == old(nodes)
      ensures var at := FoundAt(old(nodes), nodeIndex.Length, parent); at.Some? ==>
        && nodes[at.value].children == old(nodes)[at.value].children + [child]
        && nodes[at.value].nodeId == old(nodes)[at.value].nodeId && nodes[at.value].slotId == old(nodes)[at.value].slotId
        && nodes[at.value].objectType == old(nodes)[at.value].objectType && nodes[at.value].isEscaped == old(nodes)[at.value].isEscaped
        && forall i | 0 <= i < |nodes| && i != at.value :: nodes[i] == old(nodes)[i]
    {
      var at := GetNode(parent);
      if at.Some? {
        var node := nodes[at.value];
        nodes := nodes[at.value := node.(children := node.children + [child])];
      }
    }

    /** ref_graph_mark_escaped. */
    method MarkEscaped(id: NodeId)
      requires Valid()
      modifies this`nodes
      ensures Valid()
      ensures var at := FoundAt(old(nodes), nodeIndex.Length, id);
        nodes == if at.None? then old(nodes) else old(nodes)[at.value := old(nodes)[at.value].(isEscaped := true)]
    {
      var at := GetNode(id);
      if at.Some? {
        nodes := nodes[at.value := nodes[at.value].(isEscaped := true)];
      }
    }
  }
}
