/** Marking and the FREE code of a word (src/compiler.c:318-508, 2312-2504). */
module Liveness {
  import opened Wrappers
  import opened Blob
  import opened RefGraph
  import opened Reach
  import opened Compiler
  import Signatures

  type TypeId = Signatures.TypeId

  const MAX_TYPE_STACK: nat := 256

  /** type_stack_entry_t: slot -1 and node 0 mean the value is not on the heap. */
  datatype Entry = Entry(kind: TypeId, slotId: SlotId, nodeId: NodeId)

  function Unmarked(marked: seq<bool>): set<nat> {
    set i | 0 <= i < |marked| && !marked[i]
  }

  ghost predicate Marked(marked: seq<bool>, id: NodeId) {
    id < |marked| && marked[id]
  }

  function MarkedSet(marked: seq<bool>): set<NodeId> {
    set i | 0 <= i < |marked| && marked[i]
  }

  /** What marking from a node adds: nodes it reaches, with all their children marked. */
  ghost predicate MarksFrom(nodes: seq<RefNode>, was: seq<bool>, now: seq<bool>, from: NodeId) {
    && |now| == |was|
    && (forall i | 0 <= i < |was| && was[i] :: now[i])
    && (forall i | 0 <= i < |was| && now[i] && !was[i] :: Reaches(nodes, from, i) && ChildrenMarked(nodes, now, i))
  }

  ghost predicate ChildrenMarked(nodes: seq<RefNode>, marked: seq<bool>, id: NodeId) {
    forall c | Edge(nodes, id, c) :: Marked(marked, c)
  }

  lemma MarkedMore(nodes: seq<RefNode>, a: seq<bool>, b: seq<bool>, c: seq<bool>, from: NodeId, child: NodeId)
    requires MarksFrom(nodes, a, b, from) && MarksFrom(nodes, b, c, child)
    requires child == INVALID || Edge(nodes, from, child)
    ensures MarksFrom(nodes, a, c, from)
  {
    forall i | 0 <= i < |a| && c[i] && !a[i]
      ensures Reaches(nodes, from, i) && ChildrenMarked(nodes, c, i)
    {
      if !b[i] {
        assert child != INVALID;
        ReachesOn(nodes, from, child, i);
      }
    }
  }

  /** With all its children marked, the node itself counts too. */
  lemma MarkedSelf(nodes: seq<RefNode>, was: seq<bool>, now: seq<bool>, id: NodeId)
    requires id < |was| && !was[id] && Known(nodes, id)
    requires MarksFrom(nodes, was[id := true], now, id) && ChildrenMarked(nodes, now, id)
    ensures MarksFrom(nodes, was, now, id) && now[id]
  {
    ReachesSelf(nodes, id);
    forall i | 0 <= i < |was| && was[i]
      ensures now[i]
    {
      assert was[id := true][i];
    }
  }

  lemma FewerUnmarked(was: seq<bool>, now: seq<bool>, id: nat)
    requires |was| == |now| && id < |was| && !was[id] && now[id]
    requires forall i | 0 <= i < |was| && was[i] :: now[i]
    ensures Unmarked(now) < Unmarked(was)
  {
    assert id in Unmarked(was) && id !in Unmarked(now);
  }

  /** mark_node, on any graph, cycles included: unmarked nodes become fewer. */
  method MarkNode(graph: Graph, id: NodeId, marked: array<bool>)
    requires graph.Valid() && ChildrenKnown(graph.nodes) && marked.Length == graph.nodeIndex.Length
    requires id == INVALID || Known(graph.nodes, id)
    modifies marked
    ensures MarksFrom(graph.nodes, old(marked[..]), marked[..], id)
    ensures id != INVALID ==> marked[id]
    decreases Unmarked(marked[..])
  {
    hide Reaches;
    if id == INVALID || marked[id] {
      return;
    }
    ghost var was, nodes := marked[..], graph.nodes;
    marked[id] := true;
    assert marked[..] == was[id := true];
    var at := graph.GetNode(id);
    if at.Some? {
      var children := graph.nodes[at.value].children;
      for i := 0 to |children|
        invariant graph.Valid() && graph.nodes == nodes
        invariant MarksFrom(nodes, was[id := true], marked[..], id) && marked[id]
        invariant forall j | 0 <= j < i :: children[j] == INVALID || Marked(marked[..], children[j])
      {
        ghost var before := marked[..];
        assert children[i] in nodes[id - 1].children;
        FewerUnmarked(was, before, id);
        MarkNode(graph, children[i], marked);
        MarkedMore(nodes, was[id := true], before, marked[..], id, children[i]);
        forall j | 0 <= j <= i
          ensures children[j] == INVALID || Marked(marked[..], children[j])
        {
          assert j < i ==> children[j] == INVALID || Marked(before, children[j]);
        }
      }
    }
    MarkedSelf(nodes, was, marked[..], id);
  }

  // ----- What is freed -----

  /** The slots of dead nodes, in node order. */
  function DeadSlots(nodes: seq<RefNode>, live: set<NodeId>): seq<SlotId> {
    if nodes == [] then []
    else
      var n := |nodes| - 1;
      DeadSlots(nodes[..n], live) + if nodes[n].nodeId !in live && nodes[n].slotId >= 0 then [nodes[n].slotId] else []
  }

  ghost predicate SlotsDistinct(nodes: seq<RefNode>) {
    forall i, j | 0 <= i < j < |nodes| :: nodes[i].slotId != nodes[j].slotId
  }

  predicate DeadAt(nodes: seq<RefNode>, live: set<NodeId>, i: nat, slot: SlotId) {
    i < |nodes| && nodes[i].nodeId !in live && nodes[i].slotId == slot >= 0
  }

  lemma {:induction false} DeadSlotsAre(nodes: seq<RefNode>, live: set<NodeId>, slot: SlotId)
    ensures slot in DeadSlots(nodes, live) <==> exists i: nat :: DeadAt(nodes, live, i, slot)
  {
    if nodes != [] {
      var n := |nodes| - 1;
      DeadSlotsAre(nodes[..n], live, slot);
      if i: nat :| DeadAt(nodes, live, i, slot) {
        assert i < n ==> DeadAt(nodes[..n], live, i, slot);
      }
      if i: nat :| DeadAt(nodes[..n], live, i, slot) {
        assert DeadAt(nodes, live, i, slot);
      }
      assert nodes[n].nodeId !in live && nodes[n].slotId == slot >= 0 ==> DeadAt(nodes, live, n, slot);
    }
  }

  ghost predicate NoSlotTwice(slots: seq<SlotId>) {
    forall i, j | 0 <= i < j < |slots| :: slots[i] != slots[j]
  }

  lemma {:induction false} EachSlotOnce(nodes: seq<RefNode>, live: set<NodeId>)
    requires SlotsDistinct(nodes)
    ensures NoSlotTwice(DeadSlots(nodes, live))
  {
    if nodes != [] {
      var n := |nodes| - 1;
      var slot := nodes[n].slotId;
      EachSlotOnce(nodes[..n], live);
      DeadSlotsAre(nodes[..n], live, slot);
      assert slot !in DeadSlots(nodes[..n], live);
    }
  }

  /** Each dead node's slot once, and no slot of a live node. */
  lemma FreeIsSafe(nodes: seq<RefNode>, live: set<NodeId>)
    requires SlotsDistinct(nodes)
    ensures NoSlotTwice(DeadSlots(nodes, live))
    ensures forall i | 0 <= i < |nodes| && nodes[i].slotId >= 0 ::
      nodes[i].slotId in DeadSlots(nodes, live) <==> nodes[i].nodeId !in live
  {
    EachSlotOnce(nodes, live);
    forall i | 0 <= i < |nodes| && nodes[i].slotId >= 0
      ensures nodes[i].slotId in DeadSlots(nodes, live) <==> nodes[i].nodeId !in live
    {
      DeadSlotsAre(nodes, live, nodes[i].slotId);
      assert nodes[i].nodeId !in live ==> DeadAt(nodes, live, i, nodes[i].slotId);
    }
  }

  /** LIT slot, FREE, for each. */
  function FreeCode(slots: seq<SlotId>, free: U16): seq<Item> {
    if slots == [] then [] else FreeCode(slots[..|slots| - 1], free) + [Inline(slots[|slots| - 1]), Op(free)]
  }

  ghost predicate SlotsFit(nodes: seq<RefNode>) {
    forall i | 0 <= i < |nodes| :: 0 <= nodes[i].slotId < MAX_SLOTS
  }

  function Roots(typeStack: seq<Entry>, nodes: seq<RefNode>): set<NodeId> {
    (set i | 0 <= i < |typeStack| && typeStack[i].nodeId != INVALID :: typeStack[i].nodeId) +
    set i | 0 <= i < |nodes| && nodes[i].isEscaped :: nodes[i].nodeId
  }

  ghost function LiveIds(nodes: seq<RefNode>, roots: set<NodeId>): set<NodeId> {
    set id | 1 <= id <= |nodes| && Live(nodes, roots, id)
  }

  predicate EntryFits(nodes: seq<RefNode>, e: Entry) {
    if e.nodeId == INVALID then e.slotId == -1 else Known(nodes, e.nodeId) && e.slotId == nodes[e.nodeId - 1].slotId
  }

  /** What compiling a word can do to the type stack and the graph. Edges and escapes are
      between heap values named by their place on the type stack. */
  datatype Act =
    | PlainValue(kind: TypeId)
    | HeapValue(kind: TypeId)
    | DoDrop
    | DoDup
    | DoSwap
    | DoOver
    | DoRot
    | Link(parent: nat, child: nat)
    | Leave(at: nat)

  predicate OnHeap(typeStack: seq<Entry>, i: nat) {
    i < |typeStack| && typeStack[i].nodeId != INVALID
  }

  /** The type stack, the graph and the slots in use. */
  datatype World = World(typeStack: seq<Entry>, nodes: seq<RefNode>, used: seq<bool>)

  /** What an act does; nothing when the compiler refuses it. */
  function Do(w: World, act: Act): Option<World> {
    var s, n := w.typeStack, |w.typeStack|;
    match act
    case PlainValue(kind) => Some(if n < MAX_TYPE_STACK then w.(typeStack := s + [Entry(kind, -1, INVALID)]) else w)
    case HeapValue(kind) =>
      var slot, id := FirstFree(w.used, 0), |w.nodes| + 1;
      if n >= MAX_TYPE_STACK || slot.None? || slot.value >= MAX_SLOTS || slot.value >= |w.used| then Some(w)
      else Some(World(s + [Entry(kind, slot.value, id)], w.nodes + [RefNode(id, kind, slot.value, false, [])], w.used[slot.value := true]))
    case DoDrop => if n < 1 then None else Some(w.(typeStack := s[..n - 1]))
    case DoDup => if n < 1 || n >= MAX_TYPE_STACK then None else Some(w.(typeStack := s + [s[n - 1]]))
    case DoSwap => if n < 2 then None else Some(w.(typeStack := s[..n - 2] + [s[n - 1], s[n - 2]]))
    case DoOver => if n < 2 || n >= MAX_TYPE_STACK then None else Some(w.(typeStack := s + [s[n - 2]]))
    case DoRot => if n < 3 then None else Some(w.(typeStack := s[..n - 3] + [s[n - 2], s[n - 1], s[n - 3]]))
    case Link(parent, child) =>
      if OnHeap(s, parent) && OnHeap(s, child) && Known(w.nodes, s[parent].nodeId) then
        var at := s[parent].nodeId - 1;
        Some(w.(nodes := w.nodes[at := w.nodes[at].(children := w.nodes[at].children + [s[child].nodeId])]))
      else Some(w)
    case Leave(i) =>
      if OnHeap(s, i) && Known(w.nodes, s[i].nodeId) then
        var at := s[i].nodeId - 1;
        Some(w.(nodes := w.nodes[at := w.nodes[at].(isEscaped := true)]))
      else Some(w)
  }

  function DoAll(w: World, acts: seq<Act>): Option<World> {
    if acts == [] then Some(w)
    else
      var before := DoAll(w, acts[..|acts| - 1]);
      if before.None? then None else Do(before.value, acts[|acts| - 1])
  }

  function NewWord(): (w: World)
    ensures w.typeStack == [] && w.nodes == [] && |w.used| == 256 && forall i | 0 <= i < 256 :: !w.used[i]
  {
    World([], [], seq(MAX_SLOTS, _ => false))
  }

  /** The first slot not in use, from i on. */
  function FirstFree(used: seq<bool>, i: nat): Option<nat>
    decreases |used| - i
  {
    if i >= |used| then None else if !used[i] then Some(i) else FirstFree(used, i + 1)
  }

  lemma {:induction false} FirstFreeIs(used: seq<bool>, i: nat)
    ensures FirstFree(used, i).Some? ==> i <= FirstFree(used, i).value < |used| && !used[FirstFree(used, i).value]
    ensures forall j | i <= j < (if FirstFree(used, i).Some? then FirstFree(used, i).value else |used|) :: used[j]
    decreases |used| - i
  {
    if i < |used| && used[i] {
      FirstFreeIs(used, i + 1);
    }
  }

  class Tracker {
    const graph: Graph
    const slotUsed: array<bool>
    var typeStack: seq<Entry>
    var slotCount: nat

    /** Every heap value on the type stack knows its node and slot, and no slot has two nodes. */
    ghost predicate Valid()
      reads this, graph, graph.nodeIndex, slotUsed
    {
      && graph.Valid() && ChildrenKnown(graph.nodes) && slotUsed.Length == MAX_SLOTS && |typeStack| <= MAX_TYPE_STACK
      && (forall i | 0 <= i < |typeStack| :: EntryFits(graph.nodes, typeStack[i]))
      && SlotsFit(graph.nodes) && SlotsDistinct(graph.nodes)
      && forall i | 0 <= i < |graph.nodes| :: slotUsed[graph.nodes[i].slotId]
    }

    ghost function View(): World
      reads this, graph, slotUsed
    {
      World(typeStack, graph.nodes, slotUsed[..])
    }

    /** A word's compilation starts with a fresh graph and no slot in use. */
    constructor ()
      ensures Valid() && fresh(graph) && fresh(graph.nodeIndex) && fresh(slotUsed) && View() == NewWord()
    {
      graph := new Graph();
      slotUsed := new bool[MAX_SLOTS](_ => false);
      typeStack, slotCount := [], 0;
    }

    /** allocate_slot: the first free one. */
    method AllocateSlot() returns (slot: SlotId)
      requires slotUsed.Length == MAX_SLOTS
      modifies this`slotCount, slotUsed
      ensures var first := FirstFree(old(slotUsed[..]), 0);
        && slot == (if first.Some? then first.value else -1)
        && slotUsed[..] == (if first.Some? then old(slotUsed[..])[slot := true] else old(slotUsed[..]))
      ensures slotCount == if slot >= old(slotCount) then slot + 1 else old(slotCount)
      ensures slot >= 0 ==> slot < 256 && !old(slotUsed[..])[slot] && forall j | 0 <= j < slot :: old(slotUsed[..])[j]
      ensures slot < 0 ==> forall j | 0 <= j < 256 :: old(slotUsed[..])[j]
    {
      FirstFreeIs(slotUsed[..], 0);
      for i := 0 to MAX_SLOTS
        invariant FirstFree(slotUsed[..], i) == FirstFree(old(slotUsed[..]), 0)
        invariant slotUsed[..] == old(slotUsed[..])
      {
        if !slotUsed[i] {
          slotUsed[i] := true;
          if i >= slotCount {
            slotCount := i + 1;
          }
          return i;
        }
      }
      return -1;
    }

    /** push_type. */
    method PushType(kind: TypeId)
      requires Valid()
      modifies this`typeStack
      ensures Valid()
      ensures typeStack == if |old(typeStack)| < MAX_TYPE_STACK then old(typeStack) + [Entry(kind, -1, INVALID)] else old(typeStack)
    {
      if |typeStack| >= MAX_TYPE_STACK {
        return;
      }
      typeStack := typeStack + [Entry(kind, -1, INVALID)];
    }

    /** push_heap_value: a slot and a node of its own, when there is room for both. */
    method PushHeapValue(kind: TypeId)
      requires Valid()
      modifies this, slotUsed, graph, graph.nodeIndex
      ensures Valid() && (graph.nodeIndex == old(graph.nodeIndex) || fresh(graph.nodeIndex))
      ensures Some(View()) == Do(old(View()), HeapValue(kind))
    {
      if |typeStack| >= MAX_TYPE_STACK {
        return;
      }
      FirstFreeIs(slotUsed[..], 0);
      var slot := AllocateSlot();
      if slot < 0 {
        return;
      }
      ghost var nodes := graph.nodes;
      var id := graph.AllocNode(kind, slot);
      StillFit(nodes, graph.nodes, typeStack);
      ChildrenStillKnown(nodes, graph.nodes[|nodes|]);
      typeStack := typeStack + [Entry(kind, slot, id)];
    }

    /** compile_drop on the type stack: the slot stays in use. */
    method Drop() returns (ok: bool)
      requires Valid()
      modifies this`typeStack
      ensures Valid() && (ok <==> old(typeStack) != [])
      ensures typeStack == if ok then old(typeStack)[..|old(typeStack)| - 1] else old(typeStack)
    {
      if |typeStack| < 1 {
        return false;
      }
      typeStack := typeStack[..|typeStack| - 1];
      return true;
    }

    /** compile_dup: the whole entry is copied. */
    method Dup() returns (ok: bool)
      requires Valid()
      modifies this`typeStack
      ensures Valid() && (ok <==> 1 <= |old(typeStack)| < MAX_TYPE_STACK)
      ensures typeStack == if ok then old(typeStack) + [old(typeStack)[|old(typeStack)| - 1]] else old(typeStack)
    {
      if |typeStack| < 1 || |typeStack| >= MAX_TYPE_STACK {
        return false;
      }
      typeStack := typeStack + [typeStack[|typeStack| - 1]];
      return true;
    }

    /** compile_swap. */
    method Swap() returns (ok: bool)
      requires Valid()
      modifies this`typeStack
      ensures Valid() && (ok <==> 2 <= |old(typeStack)|)
      ensures var n := |old(typeStack)|;
        typeStack == if ok then old(typeStack)[..n - 2] + [old(typeStack)[n - 1], old(typeStack)[n - 2]] else old(typeStack)
    {
      var n := |typeStack|;
      if n < 2 {
        return false;
      }
      var top, second := typeStack[n - 1], typeStack[n - 2];
      typeStack := typeStack[n - 2 := top];
      typeStack := typeStack[n - 1 := second];
      return true;
    }

    /** compile_over. */
    method Over() returns (ok: bool)
      requires Valid()
      modifies this`typeStack
      ensures Valid() && (ok <==> 2 <= |old(typeStack)| < MAX_TYPE_STACK)
      ensures typeStack == if ok then old(typeStack) + [old(typeStack)[|old(typeStack)| - 2]] else old(typeStack)
    {
      var n := |typeStack|;
      if n < 2 || n >= MAX_TYPE_STACK {
        return false;
      }
      typeStack := typeStack + [typeStack[n - 2]];
      return true;
    }

    /** compile_rot: ( a b c -- b c a ). */
    method Rot() returns (ok: bool)
      requires Valid()
      modifies this`typeStack
      ensures Valid() && (ok <==> 3 <= |old(typeStack)|)
      ensures var n := |old(typeStack)|;
        typeStack == if ok then old(typeStack)[..n - 3] + [old(typeStack)[n - 2], old(typeStack)[n - 1], old(typeStack)[n - 3]]
          else old(typeStack)
    {
      var n := |typeStack|;
      if n < 3 {
        return false;
      }
      var c, b, a := typeStack[n - 1], typeStack[n - 2], typeStack[n - 3];
      typeStack := typeStack[n - 3 := b][n - 2 := c][n - 1 := a];
      return true;
    }

    /** An edge from one node of the word to another. */
    method AddEdge(parent: NodeId, child: NodeId)
      requires Valid() && Known(graph.nodes, parent) && Known(graph.nodes, child)
      modifies graph`nodes
      ensures Valid()
      ensures graph.nodes == old(graph.nodes)[parent - 1 :=
        old(graph.nodes)[parent - 1].(children := old(graph.nodes)[parent - 1].children + [child])]
    {
      ghost var nodes := graph.nodes;
      ghost var more := nodes[parent - 1 := nodes[parent - 1].(children := nodes[parent - 1].children + [child])];
      ChildAdded(nodes, parent - 1, child);
      graph.AddChild(parent, child);
      assert forall i | 0 <= i < |nodes| :: graph.nodes[i] == more[i];
      assert graph.nodes == more;
      StillFit(nodes, graph.nodes, typeStack);
    }

    /** A node that leaves the word by other ways than its type stack. */
    method Escape(id: NodeId)
      requires Valid() && Known(graph.nodes, id)
      modifies graph`nodes
      ensures Valid() && graph.nodes == old(graph.nodes)[id - 1 := old(graph.nodes)[id - 1].(isEscaped := true)]
    {
      ghost var nodes := graph.nodes;
      EscapeAdded(nodes, id - 1);
      graph.MarkEscaped(id);
      StillFit(nodes, graph.nodes, typeStack);
    }

    /** Phases 1 and 2 of emit_free_for_dead_nodes: exactly the live nodes are marked. */
    method MarkLive() returns (marked: array<bool>)
      requires Valid()
      ensures Valid() && fresh(marked) && marked.Length == graph.nodeIndex.Length
      ensures MarkedSet(marked[..]) == LiveIds(graph.nodes, Roots(typeStack, graph.nodes))
    {
      hide MarkedFrom, MarksFrom, Roots, Reaches, Live, LiveIds, MarkedSet, Unmarked, StackMarked, SlotsDistinct, SlotsFit;
      marked := new bool[graph.nodeIndex.Length](_ => false);
      ghost var nodes, roots := graph.nodes, Roots(typeStack, graph.nodes);
      NoneMarked(nodes, roots, typeStack, marked[..]);
      for i := 0 to |typeStack|
        invariant Valid() && MarkedFrom(nodes, roots, marked[..]) && StackMarked(typeStack, marked[..], i)
      {
        var id := typeStack[i].nodeId;
        ghost var was := marked[..];
        if id != INVALID {
          assert EntryFits(nodes, typeStack[i]);
          MarkNode(graph, id, marked);
          StackRootMarked(nodes, typeStack, was, marked[..], i);
        } else {
          StackRootSkipped(typeStack, was, i);
        }
      }
      for i := 0 to |graph.nodes|
        invariant Valid() && MarkedFrom(nodes, roots, marked[..]) && StackMarked(typeStack, marked[..], |typeStack|)
        invariant EscapedMarked(nodes, marked[..], i)
      {
        ghost var was := marked[..];
        if graph.nodes[i].isEscaped {
          MarkNode(graph, graph.nodes[i].nodeId, marked);
          EscapedRootMarked(nodes, typeStack, was, marked[..], i);
        } else {
          EscapedRootSkipped(nodes, was, i);
        }
      }
      AllLiveMarked(nodes, typeStack, marked[..]);
    }

    /** Phase 3: LIT slot, FREE for every unmarked node, in node order. */
    method EmitDead(out: Emitter, free: U16, marked: array<bool>)
      requires Valid() && out.Valid() && marked.Length == graph.nodeIndex.Length
      modifies out`cellCount, out`items, out.blob
      ensures Valid() && out.Valid()
      ensures out.items == old(out.items) + FreeCode(DeadSlots(graph.nodes, MarkedSet(marked[..])), free)
    {
      hide SlotsDistinct, SlotsFit, ChildrenKnown, FreeCode, DeadSlots, Emitter.Valid;
      ghost var nodes, live := graph.nodes, MarkedSet(marked[..]);
      NothingDead(nodes, live, free);
      for i := 0 to |graph.nodes|
        invariant Valid() && out.Valid() && out.blob == old(out.blob)
        invariant out.items == old(out.items) + FreeCode(DeadSlots(nodes[..i], live), free)
      {
        OneMore(nodes, live, free, i);
        var node := graph.nodes[i];
        if !marked[node.nodeId] {
          if node.slotId >= 0 {
            out.EmitInline(node.slotId);
            out.EmitPrimitive(free);
          }
        }
      }
      assert nodes[..|nodes|] == nodes;
    }

    /** emit_free_for_dead_nodes: FREE for the slots of exactly the nodes that neither the
        type stack nor an escaped node reaches. */
    method EmitFree(out: Emitter, free: Option<U16>)
      requires Valid() && out.Valid()
      modifies out`cellCount, out`items, out.blob
      ensures Valid() && out.Valid()
      ensures free.None? ==> out.items == old(out.items)
      ensures free.Some? ==>
        out.items == old(out.items) + FreeCode(DeadSlots(graph.nodes, LiveIds(graph.nodes, Roots(typeStack, graph.nodes))), free.value)
    {
      hide SlotsDistinct, SlotsFit, ChildrenKnown, Emitter.Valid, LiveIds, Roots;
      if |graph.nodes| == 0 {
        return;
      }
      var marked := MarkLive();
      if free.None? {
        return;
      }
      EmitDead(out, free.value, marked);
    }
  }

  lemma NothingDead(nodes: seq<RefNode>, live: set<NodeId>, free: U16)
    ensures FreeCode(DeadSlots(nodes[..0], live), free) == []
  {
    assert nodes[..0] == [];
  }

  lemma OneMore(nodes: seq<RefNode>, live: set<NodeId>, free: U16, i: nat)
    requires i < |nodes|
    ensures var code := FreeCode(DeadSlots(nodes[..i], live), free); var more := FreeCode(DeadSlots(nodes[..i + 1], live), free);
      more == if nodes[i].nodeId !in live && nodes[i].slotId >= 0 then code + [Inline(nodes[i].slotId), Op(free)] else code
  {
    var ns, slots := nodes[..i + 1], DeadSlots(nodes[..i], live);
    assert ns[..|ns| - 1] == nodes[..i] && ns[|ns| - 1] == nodes[i];
    if nodes[i].nodeId !in live && nodes[i].slotId >= 0 {
      assert DeadSlots(ns, live) == slots + [nodes[i].slotId];
      assert (slots + [nodes[i].slotId])[..|slots|] == slots;
    } else {
      assert DeadSlots(ns, live) == slots;
    }
  }

  ghost predicate StackMarked(typeStack: seq<Entry>, marked: seq<bool>, n: nat) {
    forall j | 0 <= j < n && j < |typeStack| && typeStack[j].nodeId != INVALID :: Marked(marked, typeStack[j].nodeId)
  }

  ghost predicate EscapedMarked(nodes: seq<RefNode>, marked: seq<bool>, n: nat) {
    forall j | 0 <= j < n && j < |nodes| && nodes[j].isEscaped :: Marked(marked, nodes[j].nodeId)
  }

  lemma NoneMarked(nodes: seq<RefNode>, roots: set<NodeId>, typeStack: seq<Entry>, marked: seq<bool>)
    requires forall i | 0 <= i < |marked| :: !marked[i]
    ensures MarkedFrom(nodes, roots, marked) && StackMarked(typeStack, marked, 0) && EscapedMarked(nodes, marked, 0)
  {
  }

  lemma StackRootMarked(nodes: seq<RefNode>, typeStack: seq<Entry>, was: seq<bool>, now: seq<bool>, i: nat)
    requires i < |typeStack| && Known(nodes, typeStack[i].nodeId) && Marked(now, typeStack[i].nodeId) && StackMarked(typeStack, was, i)
    requires ChildrenKnown(nodes) && MarkedFrom(nodes, Roots(typeStack, nodes), was) && MarksFrom(nodes, was, now, typeStack[i].nodeId)
    ensures MarkedFrom(nodes, Roots(typeStack, nodes), now) && StackMarked(typeStack, now, i + 1)
  {
    RootMarked(nodes, Roots(typeStack, nodes), was, now, typeStack[i].nodeId);
  }

  lemma StackRootSkipped(typeStack: seq<Entry>, marked: seq<bool>, i: nat)
    requires i < |typeStack| && typeStack[i].nodeId == INVALID && StackMarked(typeStack, marked, i)
    ensures StackMarked(typeStack, marked, i + 1)
  {
  }

  lemma EscapedRootMarked(nodes: seq<RefNode>, typeStack: seq<Entry>, was: seq<bool>, now: seq<bool>, i: nat)
    requires i < |nodes| && Known(nodes, nodes[i].nodeId) && Marked(now, nodes[i].nodeId) && nodes[i].isEscaped
    requires StackMarked(typeStack, was, |typeStack|) && EscapedMarked(nodes, was, i)
    requires ChildrenKnown(nodes) && MarkedFrom(nodes, Roots(typeStack, nodes), was) && MarksFrom(nodes, was, now, nodes[i].nodeId)
    ensures MarkedFrom(nodes, Roots(typeStack, nodes), now)
    ensures StackMarked(typeStack, now, |typeStack|) && EscapedMarked(nodes, now, i + 1)
  {
    RootMarked(nodes, Roots(typeStack, nodes), was, now, nodes[i].nodeId);
  }

  lemma EscapedRootSkipped(nodes: seq<RefNode>, marked: seq<bool>, i: nat)
    requires i < |nodes| && !nodes[i].isEscaped && EscapedMarked(nodes, marked, i)
    ensures EscapedMarked(nodes, marked, i + 1)
  {
  }

  /** So far only live nodes are marked, each with its children. */
  ghost predicate MarkedFrom(nodes: seq<RefNode>, roots: set<NodeId>, marked: seq<bool>) {
    forall i | 0 <= i < |marked| && marked[i] :: Known(nodes, i) && Live(nodes, roots, i) && ChildrenMarked(nodes, marked, i)
  }

  lemma RootMarked(nodes: seq<RefNode>, roots: set<NodeId>, was: seq<bool>, now: seq<bool>, id: NodeId)
    requires ChildrenKnown(nodes) && MarkedFrom(nodes, roots, was) && MarksFrom(nodes, was, now, id) && id in roots && Known(nodes, id)
    ensures MarkedFrom(nodes, roots, now)
    ensures forall x | Marked(was, x) :: Marked(now, x)
  {
    forall i | 0 <= i < |now| && now[i]
      ensures Known(nodes, i) && Live(nodes, roots, i) && ChildrenMarked(nodes, now, i)
    {
      if !was[i] {
        ReachedKnown(nodes, id, i);
      }
    }
  }

  lemma ReachedKnown(nodes: seq<RefNode>, a: NodeId, b: NodeId)
    requires ChildrenKnown(nodes) && Reaches(nodes, a, b)
    ensures Known(nodes, b)
  {
    var p :| Path(nodes, p) && p[0] == a && p[|p| - 1] == b;
    if |p| > 1 {
      var n := |p| - 2;
      assert Edge(nodes, p[n], p[n + 1]);
    }
  }

  lemma AllLiveMarked(nodes: seq<RefNode>, typeStack: seq<Entry>, marked: seq<bool>)
    requires ChildrenKnown(nodes) && MarkedFrom(nodes, Roots(typeStack, nodes), marked)
    requires StackMarked(typeStack, marked, |typeStack|) && EscapedMarked(nodes, marked, |nodes|)
    ensures MarkedSet(marked) == LiveIds(nodes, Roots(typeStack, nodes))
  {
    hide Live;
    var s := MarkedSet(marked);
    forall a, b | a in s && Edge(nodes, a, b)
      ensures b in s
    {
      assert ChildrenMarked(nodes, marked, a);
      assert Marked(marked, b);
    }
    ClosedIsLive(nodes, Roots(typeStack, nodes), s);
  }

  lemma ChildrenStillKnown(nodes: seq<RefNode>, node: RefNode)
    requires ChildrenKnown(nodes) && node.children == []
    ensures ChildrenKnown(nodes + [node])
  {
    var more := nodes + [node];
    forall i, c | 0 <= i < |more| && c in more[i].children
      ensures c == INVALID || Known(more, c)
    {
      assert i < |nodes| ==> c in nodes[i].children;
      assert c == INVALID || Known(nodes, c);
    }
  }

  lemma ChildAdded(nodes: seq<RefNode>, at: nat, child: NodeId)
    requires ChildrenKnown(nodes) && at < |nodes| && Known(nodes, child)
    ensures ChildrenKnown(nodes[at := nodes[at].(children := nodes[at].children + [child])])
  {
    var more := nodes[at := nodes[at].(children := nodes[at].children + [child])];
    forall i, c | 0 <= i < |more| && c in more[i].children
      ensures c == INVALID || Known(more, c)
    {
      assert c in nodes[i].children || c == child;
      assert c == INVALID || Known(nodes, c);
    }
  }

  lemma EscapeAdded(nodes: seq<RefNode>, at: nat)
    requires ChildrenKnown(nodes) && at < |nodes|
    ensures ChildrenKnown(nodes[at := nodes[at].(isEscaped := true)])
  {
    var more := nodes[at := nodes[at].(isEscaped := true)];
    forall i, c | 0 <= i < |more| && c in more[i].children
      ensures c == INVALID || Known(more, c)
    {
      assert c in nodes[i].children;
      assert c == INVALID || Known(nodes, c);
    }
  }

  lemma StillFit(nodes: seq<RefNode>, nodes': seq<RefNode>, typeStack: seq<Entry>)
    requires |nodes| <= |nodes'| && forall i | 0 <= i < |nodes| :: nodes'[i].slotId == nodes[i].slotId
    requires forall i | 0 <= i < |typeStack| :: EntryFits(nodes, typeStack[i])
    ensures forall i | 0 <= i < |typeStack| :: EntryFits(nodes', typeStack[i])
  {
  }

  // ----- A whole word -----

  method Perform(c: Tracker, act: Act) returns (ok: bool)
    requires c.Valid()
    modifies c, c.slotUsed, c.graph, c.graph.nodeIndex
    ensures c.Valid() && (c.graph.nodeIndex == old(c.graph.nodeIndex) || fresh(c.graph.nodeIndex))
    ensures ok <==> Do(old(c.View()), act).Some?
    ensures ok ==> Do(old(c.View()), act) == Some(c.View())
  {
    hide SlotsDistinct, SlotsFit, ChildrenKnown, FirstFree;
    ok := true;
    match act
    case PlainValue(kind) => c.PushType(kind);
    case HeapValue(kind) => c.PushHeapValue(kind);
    case DoDrop => ok := c.Drop();
    case DoDup => ok := c.Dup();
    case DoSwap => ok := c.Swap();
    case DoOver => ok := c.Over();
    case DoRot => ok := c.Rot();
    case Link(parent, child) =>
      if OnHeap(c.typeStack, parent) && OnHeap(c.typeStack, child) {
        assert EntryFits(c.graph.nodes, c.typeStack[parent]) && EntryFits(c.graph.nodes, c.typeStack[child]);
        c.AddEdge(c.typeStack[parent].nodeId, c.typeStack[child].nodeId);
      }
    case Leave(at) =>
      if OnHeap(c.typeStack, at) {
        assert EntryFits(c.graph.nodes, c.typeStack[at]);
        c.Escape(c.typeStack[at].nodeId);
      }
  }

  // ----- Links last -----

  ghost predicate WorldFits(w: World) {
    forall i | 0 <= i < |w.typeStack| :: EntryFits(w.nodes, w.typeStack[i])
  }

  lemma DoFits(w: World, act: Act)
    requires WorldFits(w) && Do(w, act).Some?
    ensures WorldFits(Do(w, act).value)
  {
    hide FirstFree;
    var w' := Do(w, act).value;
    forall i | 0 <= i < |w'.typeStack|
      ensures EntryFits(w'.nodes, w'.typeStack[i])
    {
      assert i < |w.typeStack| ==> EntryFits(w.nodes, w.typeStack[i]);
    }
  }

  lemma {:induction false} DoAllFits(acts: seq<Act>)
    requires DoAll(NewWord(), acts).Some?
    ensures WorldFits(DoAll(NewWord(), acts).value)
  {
    if acts != [] {
      DoAllFits(acts[..|acts| - 1]);
      DoFits(DoAll(NewWord(), acts[..|acts| - 1]).value, acts[|acts| - 1]);
    }
  }

  /** Linking two heap values makes an edge between their nodes. */
  lemma LinkMakesEdge(w: World, parent: nat, child: nat)
    requires WorldFits(w) && OnHeap(w.typeStack, parent) && OnHeap(w.typeStack, child)
    ensures Do(w, Link(parent, child)).Some?
    ensures Edge(Do(w, Link(parent, child)).value.nodes, w.typeStack[parent].nodeId, w.typeStack[child].nodeId)
  {
    assert EntryFits(w.nodes, w.typeStack[parent]);
  }

  /** No act takes an edge away. */
  lemma EdgeStays(w: World, act: Act, a: NodeId, b: NodeId)
    requires Edge(w.nodes, a, b) && Do(w, act).Some?
    ensures Edge(Do(w, act).value.nodes, a, b)
  {
  }

  lemma {:induction false} EdgesStay(acts: seq<Act>, i: nat, a: NodeId, b: NodeId)
    requires i <= |acts| && DoAll(NewWord(), acts).Some?
    requires DoAll(NewWord(), acts[..i]).Some? && Edge(DoAll(NewWord(), acts[..i]).value.nodes, a, b)
    ensures Edge(DoAll(NewWord(), acts).value.nodes, a, b)
    decreases |acts| - i
  {
    if i < |acts| {
      assert acts[..i + 1][..i] == acts[..i];
      if DoAll(NewWord(), acts[..i + 1]).None? {
        StaysRefused(NewWord(), acts, i + 1);
      }
      EdgeStays(DoAll(NewWord(), acts[..i]).value, acts[i], a, b);
      EdgesStay(acts, i + 1, a, b);
    } else {
      assert acts[..i] == acts;
    }
  }

  predicate HasNode(typeStack: seq<Entry>, i: nat, id: NodeId) {
    OnHeap(typeStack, i) && typeStack[i].nodeId == id
  }

  /** Act i links the heap value of node a to that of node b. */
  predicate LinkedAt(acts: seq<Act>, i: nat, a: NodeId, b: NodeId) {
    i < |acts| && acts[i].Link? && DoAll(NewWord(), acts[..i]).Some? &&
    HasNode(DoAll(NewWord(), acts[..i]).value.typeStack, acts[i].parent, a) &&
    HasNode(DoAll(NewWord(), acts[..i]).value.typeStack, acts[i].child, b)
  }

  ghost predicate Linked(acts: seq<Act>, a: NodeId, b: NodeId) {
    exists i: nat :: LinkedAt(acts, i, a, b)
  }

  lemma LinkedIsEdge(acts: seq<Act>, a: NodeId, b: NodeId)
    requires Linked(acts, a, b) && DoAll(NewWord(), acts).Some?
    ensures Edge(DoAll(NewWord(), acts).value.nodes, a, b)
  {
    var i: nat :| LinkedAt(acts, i, a, b);
    var w := DoAll(NewWord(), acts[..i]).value;
    DoAllFits(acts[..i]);
    LinkMakesEdge(w, acts[i].parent, acts[i].child);
    assert acts[..i + 1][..i] == acts[..i];
    EdgesStay(acts, i + 1, a, b);
  }

  /** Each value in the chain was linked to the next. */
  ghost predicate LinkedChain(acts: seq<Act>, ids: seq<NodeId>) {
    ids != [] && forall k | 0 <= k < |ids| - 1 :: Linked(acts, ids[k], ids[k + 1])
  }

  predicate OnStack(typeStack: seq<Entry>, id: NodeId) {
    id != INVALID && exists i :: 0 <= i < |typeStack| && typeStack[i].nodeId == id
  }

  /** Whatever was linked, in however many steps, under a value that is still on the type
      stack is live. */
  lemma ChainIsLive(acts: seq<Act>, ids: seq<NodeId>)
    requires DoAll(NewWord(), acts).Some? && LinkedChain(acts, ids)
    requires OnStack(DoAll(NewWord(), acts).value.typeStack, ids[0])
    ensures var w := DoAll(NewWord(), acts).value; Live(w.nodes, Roots(w.typeStack, w.nodes), ids[|ids| - 1])
  {
    var w := DoAll(NewWord(), acts).value;
    DoAllFits(acts);
    var i :| 0 <= i < |w.typeStack| && w.typeStack[i].nodeId == ids[0];
    assert EntryFits(w.nodes, w.typeStack[i]);
    forall k | 0 <= k < |ids| - 1
      ensures Edge(w.nodes, ids[k], ids[k + 1])
    {
      assert Linked(acts, ids[k], ids[k + 1]);
      LinkedIsEdge(acts, ids[k], ids[k + 1]);
    }
    assert Path(w.nodes, ids);
    assert ids[0] in Roots(w.typeStack, w.nodes);
  }

  /** The slot of such a value is not among those of the dead. */
  lemma ChainIsKept(c: Tracker, acts: seq<Act>, freed: seq<SlotId>, ids: seq<NodeId>)
    requires c.Valid() && DoAll(NewWord(), acts) == Some(c.View()) && LinkedChain(acts, ids) && OnStack(c.typeStack, ids[0])
    requires forall i | 0 <= i < |c.graph.nodes| ::
      c.graph.nodes[i].slotId in freed <==> !Live(c.graph.nodes, Roots(c.typeStack, c.graph.nodes), i + 1)
    ensures Known(c.graph.nodes, ids[|ids| - 1]) && c.graph.nodes[ids[|ids| - 1] - 1].slotId !in freed
  {
    ChainIsLive(acts, ids);
    var roots, last := Roots(c.typeStack, c.graph.nodes), ids[|ids| - 1];
    var r :| r in roots && Reaches(c.graph.nodes, r, last);
    ReachedKnown(c.graph.nodes, r, last);
    assert c.graph.nodes[last - 1].slotId in freed <==> !Live(c.graph.nodes, roots, last - 1 + 1);
  }

  /** No node has it as a child, nothing on the type stack names it, and it has not escaped. */
  ghost predicate Unreferenced(nodes: seq<RefNode>, typeStack: seq<Entry>, id: NodeId) {
    && (forall i | 0 <= i < |nodes| :: id !in nodes[i].children && !(nodes[i].nodeId == id && nodes[i].isEscaped))
    && forall i | 0 <= i < |typeStack| :: typeStack[i].nodeId != id
  }

  /** What nothing refers to is dead. */
  lemma UnreferencedIsDead(nodes: seq<RefNode>, typeStack: seq<Entry>, id: NodeId)
    requires Unreferenced(nodes, typeStack, id)
    ensures !Live(nodes, Roots(typeStack, nodes), id)
  {
    var roots := Roots(typeStack, nodes);
    assert id !in roots;
    if Live(nodes, roots, id) {
      var r :| r in roots && Reaches(nodes, r, id);
      LastStep(nodes, r, id);
    }
  }

  /** A node that is reached is where the path starts or some node's child. */
  lemma LastStep(nodes: seq<RefNode>, a: NodeId, b: NodeId)
    requires Reaches(nodes, a, b)
    ensures a == b || exists i :: 0 <= i < |nodes| && b in nodes[i].children
  {
    var p :| Path(nodes, p) && p[0] == a && p[|p| - 1] == b;
    if |p| > 1 {
      var n := |p| - 2;
      assert Edge(nodes, p[n], p[n + 1]);
      assert b in nodes[p[n] - 1].children;
    }
  }

  lemma UnreferencedIsFreed(c: Tracker, freed: seq<SlotId>, i: nat)
    requires i < |c.graph.nodes| && Unreferenced(c.graph.nodes, c.typeStack, i + 1)
    requires c.graph.nodes[i].slotId in freed <==> !Live(c.graph.nodes, Roots(c.typeStack, c.graph.nodes), i + 1)
    ensures c.graph.nodes[i].slotId in freed
  {
    UnreferencedIsDead(c.graph.nodes, c.typeStack, i + 1);
  }

  /** After any acts, the code emitted at the end of the word frees each dead node's slot
      exactly once, and no slot that the type stack or an escaped node still reaches. */
  method CompileWord(acts: seq<Act>, out: Emitter, free: U16) returns (ok: bool, c: Tracker, ghost freed: seq<SlotId>)
    requires out.Valid()
    modifies out`cellCount, out`items, out.blob
    ensures out.Valid() && out.items == old(out.items) + FreeCode(freed, free)
    ensures ok <==> DoAll(NewWord(), acts).Some?
    ensures if ok then DoAll(NewWord(), acts) == Some(c.View()) else freed == []
    ensures ok ==> c.Valid() && NoSlotTwice(freed)
    ensures ok ==> forall i | 0 <= i < |c.graph.nodes| ::
      c.graph.nodes[i].slotId in freed <==> !Live(c.graph.nodes, Roots(c.typeStack, c.graph.nodes), i + 1)
    ensures ok ==> forall slot | slot in freed :: SlotOfNode(c.graph.nodes, slot)
    ensures ok ==> forall ids | LinkedChain(acts, ids) && OnStack(c.typeStack, ids[0]) ::
      Known(c.graph.nodes, ids[|ids| - 1]) && c.graph.nodes[ids[|ids| - 1] - 1].slotId !in freed
    ensures ok ==> forall i | 0 <= i < |c.graph.nodes| && Unreferenced(c.graph.nodes, c.typeStack, i + 1) ::
      c.graph.nodes[i].slotId in freed
  {
    hide Unreferenced, LiveIds, Roots, Live, SlotsFit, ChildrenKnown, Emitter.Valid, SlotsDistinct;
    c := new Tracker();
    ok, freed := true, [];
    for i := 0 to |acts|
      invariant c.Valid() && fresh(c) && fresh(c.graph) && fresh(c.graph.nodeIndex) && fresh(c.slotUsed)
      invariant out.Valid() && out.items == old(out.items) && out.blob == old(out.blob) && out.blob.data == old(out.blob.data)
      invariant ok && DoAll(NewWord(), acts[..i]) == Some(c.View())
    {
      assert acts[..i + 1][..i] == acts[..i];
      ok := Perform(c, acts[i]);
      if !ok {
        StaysRefused(NewWord(), acts, i + 1);
        assert old(out.items) + FreeCode([], free) == old(out.items);
        return;
      }
    }
    assert acts[..|acts|] == acts;
    c.EmitFree(out, Some(free));
    freed := DeadSlots(c.graph.nodes, LiveIds(c.graph.nodes, Roots(c.typeStack, c.graph.nodes)));
    FreedAreDead(c, freed);
    forall ids | LinkedChain(acts, ids) && OnStack(c.typeStack, ids[0])
      ensures Known(c.graph.nodes, ids[|ids| - 1]) && c.graph.nodes[ids[|ids| - 1] - 1].slotId !in freed
    {
      ChainIsKept(c, acts, freed, ids);
    }
    forall i | 0 <= i < |c.graph.nodes| && Unreferenced(c.graph.nodes, c.typeStack, i + 1)
      ensures c.graph.nodes[i].slotId in freed
    {
      UnreferencedIsFreed(c, freed, i);
    }
  }

  ghost predicate SlotOfNode(nodes: seq<RefNode>, slot: SlotId) {
    exists i :: 0 <= i < |nodes| && nodes[i].slotId == slot
  }

  lemma {:induction false} StaysRefused(w: World, acts: seq<Act>, i: nat)
    requires i <= |acts| && DoAll(w, acts[..i]).None?
    ensures DoAll(w, acts).None?
    decreases |acts| - i
  {
    if i < |acts| {
      assert acts[..i + 1][..i] == acts[..i];
      StaysRefused(w, acts, i + 1);
    } else {
      assert acts[..i] == acts;
    }
  }

  lemma FreedAreDead(c: Tracker, freed: seq<SlotId>)
    requires c.Valid() && freed == DeadSlots(c.graph.nodes, LiveIds(c.graph.nodes, Roots(c.typeStack, c.graph.nodes)))
    ensures NoSlotTwice(freed)
    ensures forall i | 0 <= i < |c.graph.nodes| ::
      c.graph.nodes[i].slotId in freed <==> !Live(c.graph.nodes, Roots(c.typeStack, c.graph.nodes), i + 1)
    ensures forall slot | slot in freed :: SlotOfNode(c.graph.nodes, slot)
  {
    hide Live;
    var live := LiveIds(c.graph.nodes, Roots(c.typeStack, c.graph.nodes));
    forall slot | slot in freed
      ensures SlotOfNode(c.graph.nodes, slot)
    {
      DeadSlotsAre(c.graph.nodes, live, slot);
      var i: nat :| DeadAt(c.graph.nodes, live, i, slot);
    }
    FreeIsSafe(c.graph.nodes, LiveIds(c.graph.nodes, Roots(c.typeStack, c.graph.nodes)));
  }

  // ----- Escapes last -----

  predicate EscapedNode(nodes: seq<RefNode>, id: NodeId) {
    Known(nodes, id) && nodes[id - 1].isEscaped && nodes[id - 1].nodeId == id
  }

  /** A value that leaves the word marks its node as escaped. */
  lemma LeaveEscapes(w: World, at: nat)
    requires WorldFits(w) && OnHeap(w.typeStack, at) && Numbered(w.nodes)
    ensures Do(w, Leave(at)).Some? && EscapedNode(Do(w, Leave(at)).value.nodes, w.typeStack[at].nodeId)
  {
    assert EntryFits(w.nodes, w.typeStack[at]);
  }

  /** No act takes that back, and an escaped node is live whatever the type stack holds. */
  lemma EscapeStays(w: World, act: Act, id: NodeId)
    requires EscapedNode(w.nodes, id) && Do(w, act).Some?
    ensures EscapedNode(Do(w, act).value.nodes, id)
    ensures Live(w.nodes, Roots(w.typeStack, w.nodes), id)
  {
    ReachesSelf(w.nodes, id);
    assert w.nodes[id - 1].nodeId in Roots(w.typeStack, w.nodes);
  }

  // ----- The emitted code, and an example -----

  /** Two items for each slot, in order. */
  lemma {:induction false} FreeCodeLaw(slots: seq<SlotId>, free: U16)
    ensures |FreeCode(slots, free)| == 2 * |slots|
    ensures forall k | 0 <= k < |slots| :: FreeCode(slots, free)[2 * k] == Inline(slots[k])
    ensures forall k | 0 <= k < |slots| :: FreeCode(slots, free)[2 * k + 1] == Op(free)
  {
    if slots != [] {
      FreeCodeLaw(slots[..|slots| - 1], free);
    }
  }

  function LinkAndDrop(kind: TypeId): seq<Act> {
    [HeapValue(kind), HeapValue(kind), Link(0, 1), DoDrop]
  }

  function TwoNodes(kind: TypeId, children: seq<NodeId>): seq<RefNode> {
    [RefNode(1, kind, 0, false, children), RefNode(2, kind, 1, false, [])]
  }

  lemma LinkAndDropDoes(kind: TypeId)
    ensures var acts := LinkAndDrop(kind); var used := NewWord().used[0 := true][1 := true];
      && DoAll(NewWord(), acts[..2]) == Some(World([Entry(kind, 0, 1), Entry(kind, 1, 2)], TwoNodes(kind, []), used))
      && DoAll(NewWord(), acts) == Some(World([Entry(kind, 0, 1)], TwoNodes(kind, [2]), used))
  {
    var acts := LinkAndDrop(kind);
    assert acts[..1][..0] == [] && acts[..2][..1] == acts[..1] && acts[..3][..2] == acts[..2] && acts[..4][..3] == acts[..3] && acts[..4] == acts;
    var w0, w1 := NewWord(), World([Entry(kind, 0, 1)], [RefNode(1, kind, 0, false, [])], NewWord().used[0 := true]);
    assert |w0.used| == 256 && !w0.used[0] && !w0.used[1];
    assert FirstFree(w0.used, 0) == Some(0);
    assert w0.typeStack + [Entry(kind, 0, 1)] == w1.typeStack && w0.nodes + [RefNode(1, kind, 0, false, [])] == w1.nodes;
    assert Do(w0, HeapValue(kind)) == Some(w1);
    var w2 := World([Entry(kind, 0, 1), Entry(kind, 1, 2)], TwoNodes(kind, []), w1.used[1 := true]);
    assert w1.used[0] && !w1.used[1];
    assert FirstFree(w1.used, 1) == Some(1);
    assert FirstFree(w1.used, 0) == Some(1);
    assert w1.typeStack + [Entry(kind, 1, 2)] == w2.typeStack && w1.nodes + [RefNode(2, kind, 1, false, [])] == w2.nodes;
    assert Do(w1, HeapValue(kind)) == Some(w2);
    var w3 := w2.(nodes := TwoNodes(kind, [2]));
    assert w2.nodes[0].children + [2] == [2];
    assert w2.nodes[0 := w2.nodes[0].(children := [2])] == w3.nodes;
    assert Do(w2, Link(0, 1)) == Some(w3);
    assert w3.typeStack[..1] == [Entry(kind, 0, 1)];
    assert DoAll(w0, acts[..1]) == Some(w1) && DoAll(w0, acts[..2]) == Some(w2) && DoAll(w0, acts[..3]) == Some(w3);
  }

  /** The first of two heap values points to the second and stays on the type stack, the
      second is dropped: nothing is freed. */
  method KeepsLinked(out: Emitter, free: U16, kind: TypeId)
    requires out.Valid()
    modifies out`cellCount, out`items, out.blob
    ensures out.Valid() && out.items == old(out.items)
  {
    LinkAndDropDoes(kind);
    var ok, c;
    ghost var freed;
    ok, c, freed := CompileWord(LinkAndDrop(kind), out, free);
    NothingFreed(c, kind, freed);
    assert out.items == old(out.items) + [];
  }

  lemma MakeAndDropDoes(kind: TypeId)
    ensures DoAll(NewWord(), [HeapValue(kind), DoDrop]) == Some(World([], [RefNode(1, kind, 0, false, [])], NewWord().used[0 := true]))
  {
    var acts := [HeapValue(kind), DoDrop];
    assert acts[..1][..0] == [] && acts[..2][..1] == acts[..1] && acts[..2] == acts;
    var w0, w1 := NewWord(), World([Entry(kind, 0, 1)], [RefNode(1, kind, 0, false, [])], NewWord().used[0 := true]);
    assert |w0.used| == 256 && !w0.used[0];
    assert FirstFree(w0.used, 0) == Some(0);
    assert w0.typeStack + [Entry(kind, 0, 1)] == w1.typeStack && w0.nodes + [RefNode(1, kind, 0, false, [])] == w1.nodes;
    assert Do(w0, HeapValue(kind)) == Some(w1);
    assert w1.typeStack[..0] == [];
    assert DoAll(w0, acts[..1]) == Some(w1);
  }

  /** A heap value that is made and dropped is freed: its slot is 0. */
  method FreesDropped(out: Emitter, free: U16, kind: TypeId)
    requires out.Valid()
    modifies out`cellCount, out`items, out.blob
    ensures out.Valid() && out.items == old(out.items) + [Inline(0), Op(free)]
  {
    hide DoAll;
    MakeAndDropDoes(kind);
    var ok, c;
    ghost var freed;
    ok, c, freed := CompileWord([HeapValue(kind), DoDrop], out, free);
    assert Unreferenced(c.graph.nodes, c.typeStack, 1);
    OneFreed(c, freed);
    FreeCodeLaw(freed, free);
    assert FreeCode(freed, free) == [Inline(0), Op(free)];
  }

  lemma OneFreed(c: Tracker, freed: seq<SlotId>)
    requires |c.graph.nodes| == 1 && c.graph.nodes[0].slotId == 0 && 0 in freed && NoSlotTwice(freed)
    requires forall slot | slot in freed :: SlotOfNode(c.graph.nodes, slot)
    ensures freed == [0]
  {
    var i :| 0 <= i < |freed| && freed[i] == 0;
    forall j | 0 <= j < |freed|
      ensures freed[j] == 0
    {
      assert freed[j] in freed;
    }
    FirstsDiffer(freed);
  }

  lemma FirstsDiffer(slots: seq<SlotId>)
    requires NoSlotTwice(slots)
    ensures |slots| < 2 || slots[0] != slots[1]
  {
  }

  lemma OnlyEmpty(slots: seq<SlotId>)
    ensures slots != [] ==> exists slot: SlotId :: slot in slots
  {
    if slots != [] {
      assert slots[0] in slots;
    }
  }

  lemma NothingFreed(c: Tracker, kind: TypeId, freed: seq<SlotId>)
    requires DoAll(NewWord(), LinkAndDrop(kind)) == Some(c.View())
    requires forall slot | slot in freed :: SlotOfNode(c.graph.nodes, slot)
    requires forall ids | LinkedChain(LinkAndDrop(kind), ids) && OnStack(c.typeStack, ids[0]) ::
      Known(c.graph.nodes, ids[|ids| - 1]) && c.graph.nodes[ids[|ids| - 1] - 1].slotId !in freed
    ensures freed == []
  {
    hide DoAll, Do;
    LinkAndDropDoes(kind);
    var acts := LinkAndDrop(kind);
    assert LinkedAt(acts, 2, 1, 2);
    var one, both := [1], [1, 2];
    assert LinkedChain(acts, both) && LinkedChain(acts, one);
    assert c.typeStack[0].nodeId == 1;
    assert c.graph.nodes[both[|both| - 1] - 1].slotId !in freed && c.graph.nodes[one[|one| - 1] - 1].slotId !in freed;
    forall slot
      ensures slot !in freed
    {
      assert SlotOfNode(c.graph.nodes, slot) ==> slot == 0 || slot == 1;
    }
    OnlyEmpty(freed);
  }
}
