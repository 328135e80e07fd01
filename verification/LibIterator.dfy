/** libhamt's iterator (src/hamt/hamt.c:649-766): a depth-first walk with an explicit stack. */
module LibIterator {
  import opened Wrappers
  import opened Bitmap
  import opened HashTrie
  import opened TrieMap
  import opened LibHeap
  import opened LibMemory
  import opened LibSearch
  import opened LibInsert
  import opened LibHamt

  // ----- The stack -----

  /** struct hamt_iterator_item: a table's anchor and the next row to look at. */
  datatype Item = Item(anchor: Loc, pos: nat)

  /** What the items on the stack have still to show, top first. */
  function Remaining(stack: seq<Item>, nodes: seq<Trie>): seq<Binding>
    requires |stack| == |nodes|
    requires forall i | 0 <= i < |stack| :: nodes[i].Node? && stack[i].pos <= |nodes[i].rows|
  {
    if stack == [] then [] else LeavesOf(nodes[0].rows[stack[0].pos..]) + Remaining(stack[1..], nodes[1..])
  }

  /** Steps a walk of these rows takes. */
  function Effort(rows: seq<Trie>): (e: nat)
    ensures rows != [] ==> e > 0
  {
    if rows == [] then 0
    else 1 + (if rows[0].Node? then 1 + Effort(rows[0].rows) else 0) + Effort(rows[1..])
  }

  function StackEffort(stack: seq<Item>, nodes: seq<Trie>): nat
    requires |stack| == |nodes|
    requires forall i | 0 <= i < |stack| :: nodes[i].Node? && stack[i].pos <= |nodes[i].rows|
  {
    if stack == [] then 0 else 1 + Effort(nodes[0].rows[stack[0].pos..]) + StackEffort(stack[1..], nodes[1..])
  }

  ghost predicate StackFits(stack: seq<Item>, nodes: seq<Trie>) {
    |stack| == |nodes| && forall i | 0 <= i < |stack| :: nodes[i].Node? && stack[i].pos <= |nodes[i].rows|
  }

  function Passed(stack: seq<Item>): seq<Item>
    requires stack != []
  {
    stack[0 := Item(stack[0].anchor, stack[0].pos + 1)]
  }

  /** Passing a row. */
  lemma {:induction false} PassRow(stack: seq<Item>, nodes: seq<Trie>)
    requires StackFits(stack, nodes) && stack != [] && stack[0].pos < |nodes[0].rows|
    ensures var x := nodes[0].rows[stack[0].pos];
      && StackFits(Passed(stack), nodes)
      && Remaining(stack, nodes) == Leaves(x) + Remaining(Passed(stack), nodes)
      && StackEffort(stack, nodes) == StackEffort(Passed(stack), nodes) + 1 + if x.Node? then 1 + Effort(x.rows) else 0
  {
    hide Leaves, LeavesOf, Effort;
    RestOfRows(nodes[0].rows, stack[0].pos);
    assert Passed(stack)[1..] == stack[1..];
  }

  /** A table goes on the stack. */
  lemma {:induction false} PushTable(stack: seq<Item>, nodes: seq<Trie>, x: Trie, at: Loc)
    requires StackFits(stack, nodes) && x.Node?
    ensures StackFits([Item(at, 0)] + stack, [x] + nodes)
    ensures Remaining([Item(at, 0)] + stack, [x] + nodes) == Leaves(x) + Remaining(stack, nodes)
    ensures StackEffort([Item(at, 0)] + stack, [x] + nodes) == 1 + Effort(x.rows) + StackEffort(stack, nodes)
  {
    hide Effort;
    assert ([Item(at, 0)] + stack)[1..] == stack && ([x] + nodes)[1..] == nodes;
    assert x.rows[0..] == x.rows;
  }

  lemma {:induction false} PopEmpty(stack: seq<Item>, nodes: seq<Trie>)
    requires StackFits(stack, nodes) && stack != [] && stack[0].pos == |nodes[0].rows|
    ensures StackFits(stack[1..], nodes[1..]) && Remaining(stack[1..], nodes[1..]) == Remaining(stack, nodes)
    ensures StackEffort(stack[1..], nodes[1..]) <= StackEffort(stack, nodes)
  {
  }

  lemma NothingLeft(stack: seq<Item>, nodes: seq<Trie>)
    requires StackFits(stack, nodes)
    ensures stack == [] ==> Remaining(stack, nodes) == []
  {
  }

  class Iterator {
    const hamt: Hamt
    var stack: seq<Item>
    var cur: Option<Loc>
    ghost var nodes: seq<Trie>

    /** Every item is the anchor of a node of the trie as it is in memory. */
    ghost predicate Valid()
      reads this, hamt, hamt.mem
    {
      && hamt.Valid() && |stack| == |nodes|
      && forall i | 0 <= i < |stack| :: ItemFits(hamt.hf, hamt.mem.tables, stack[i], nodes[i])
    }

    ghost function Left(): seq<Binding>
      reads this, hamt, hamt.mem
      requires Valid()
    {
      Remaining(stack, nodes)
    }

    /** hamt_it_create, up to its first step. */
    constructor (hamt: Hamt)
      requires hamt.Valid()
      ensures this.hamt == hamt && Valid() && Left() == Leaves(hamt.trie)
    {
      this.hamt, stack, cur, nodes := hamt, [Item(hamt.root, 0)], None, [hamt.trie];
      new;
      assert ItemFitsAt(hamt.hf, hamt.mem.tables, stack[0], nodes[0], 0);
      assert hamt.trie.rows[0..] == hamt.trie.rows;
      assert Remaining(stack[1..], nodes[1..]) == [];
    }

    /** hamt_it_next: the next value row, or none. */
    method Next()
      requires Valid()
      modifies this
      ensures Valid()
      ensures old(Left()) == [] ==> cur == None && Left() == []
      ensures old(Left()) != [] ==> cur.Some? && Left() == old(Left())[1..] && HoldsBinding(hamt.mem.tables, cur.value, old(Left())[0])
      decreases StackEffort(stack, nodes)
    {
      hide Remaining, StackEffort, WellFormed, Anchored, LibHamt.Hamt.Valid, Popcount;
      while |stack| > 0
        invariant Valid() && Left() == old(Left())
        invariant StackEffort(stack, nodes) <= old(StackEffort(stack, nodes))
        decreases |stack|
      {
        var p := stack[0];
        ghost var node := nodes[0];
        ghost var d := FitFacts(hamt.hf, hamt.mem.tables, p, node);
        var nPos := Popcount(hamt.mem.RowAt(p.anchor).other);
        if p.pos < nPos {
          var at := Loc(hamt.mem.RowAt(p.anchor).word, p.pos);
          RowFitsBelow(hamt.hf, hamt.mem.tables, p, node, d);
          assert ItemFitsAt(hamt.hf, hamt.mem.tables, Item(p.anchor, p.pos + 1), node, d);
          PassRow(stack, nodes);
          stack := stack[0 := Item(p.anchor, p.pos + 1)];
          if IsValue(hamt.mem.RowAt(at)) {
            cur := Some(at);
            return;
          }
          ghost var child := node.rows[p.pos];
          PushTable(stack, nodes, child, at);
          stack, nodes := [Item(at, 0)] + stack, [child] + nodes;
          Next();
          return;
        }
        PopEmpty(stack, nodes);
        stack, nodes := stack[1..], nodes[1..];
      }
      NothingLeft(stack, nodes);
      cur := None;
    }
  }

  ghost predicate ItemFits(hf: LibHash, h: Heap, item: Item, node: Trie) {
    exists d: nat :: ItemFitsAt(hf, h, item, node, d)
  }

  ghost predicate ItemFitsAt(hf: LibHash, h: Heap, item: Item, node: Trie, d: nat) {
    node.Node? && item.pos <= |node.rows| && WellFormed(hf, node, d) && Anchored(h, item.anchor, node)
  }

  ghost predicate HoldsBinding(h: Heap, loc: Loc, b: Binding) {
    HoldsRow(h, loc, Row(Tagged(b.value), b.key)) && b.value % 4 == 0
  }

  lemma FitFacts(hf: LibHash, h: Heap, item: Item, node: Trie) returns (d: nat)
    requires ItemFits(hf, h, item, node)
    ensures ItemFitsAt(hf, h, item, node, d) && HoldsRow(h, item.anchor, RowOf(node)) && |node.rows| == Popcount(node.bitmap)
  {
    d :| ItemFitsAt(hf, h, item, node, d);
    NodeTable(hf, h, item.anchor, node, d);
  }

  lemma RowFitsBelow(hf: LibHash, h: Heap, item: Item, node: Trie, d: nat)
    requires ItemFitsAt(hf, h, item, node, d) && item.pos < |node.rows|
    ensures var x, at := node.rows[item.pos], Loc(node.ptr, item.pos);
      && HoldsRow(h, at, RowOf(x)) && (IsValue(RowOf(x)) <==> x.Leaf?)
      && (x.Leaf? ==> x.value % 4 == 0) && (x.Node? ==> ItemFitsAt(hf, h, Item(at, 0), x, d + 1))
  {
    ChildAnchored(h, node, item.anchor, item.pos);
    assert WellFormed(hf, node.rows[item.pos], d + 1);
    TagTells(hf, h, node.rows[item.pos], d + 1);
  }

  lemma RestOfRows(rows: seq<Trie>, i: nat)
    requires i < |rows|
    ensures LeavesOf(rows[i..]) == Leaves(rows[i]) + LeavesOf(rows[i + 1..])
    ensures Effort(rows[i..]) == 1 + (if rows[i].Node? then 1 + Effort(rows[i].rows) else 0) + Effort(rows[i + 1..])
  {
    assert rows[i..][1..] == rows[i + 1..];
  }

  /** How far a client has come: what it has, the row it looks at, what is left. */
  ghost predicate Progress(h: Heap, todo: seq<Binding>, done: seq<Binding>, cur: Option<Loc>, left: seq<Binding>) {
    if cur.None? then done == todo && left == []
    else
      && |done| < |todo| && done == todo[..|done|] && left == todo[|done| + 1..]
      && HoldsBinding(h, cur.value, todo[|done|])
  }

  lemma ProgressOn(h: Heap, todo: seq<Binding>, done: seq<Binding>, left: seq<Binding>, cur: Option<Loc>, left': seq<Binding>)
    requires |done| < |todo| && done == todo[..|done|] && left == todo[|done| + 1..]
    requires left == [] ==> cur == None && left' == []
    requires left != [] ==> cur.Some? && left' == left[1..] && HoldsBinding(h, cur.value, left[0])
    ensures Progress(h, todo, done + [todo[|done|]], cur, left')
  {
    assert done + [todo[|done|]] == todo[..|done| + 1];
  }

  /** What a client collects: create, then next until the iterator is no longer valid. */
  method Walk(h: Hamt) returns (bindings: seq<Binding>)
    requires h.Valid()
    ensures bindings == Leaves(h.trie)
  {
    hide LibHamt.Hamt.Valid, Iterator.Valid, Iterator.Left, Untagged, Tagged;
    var it := new Iterator(h);
    ghost var heap, todo := h.mem.tables, Leaves(h.trie);
    it.Next();
    bindings := [];
    while it.cur.Some?
      invariant it.Valid() && it.hamt == h && h.mem.tables == heap && fresh(it)
      invariant Progress(heap, todo, bindings, it.cur, it.Left())
      decreases |todo| - |bindings|
    {
      ghost var b, left := todo[|bindings|], it.Left();
      var row := h.mem.RowAt(it.cur.value);
      TagUndone(b.value);
      it.Next();
      ProgressOn(heap, todo, bindings, left, it.cur, it.Left());
      bindings := bindings + [Binding(row.other, Untagged(row.word))];
    }
  }

  /** Iterating meets every binding exactly once, and nothing else. */
  lemma WalkIsComplete(h: Hamt)
    requires h.Valid()
    ensures NoKeyTwice(Leaves(h.trie))
    ensures forall b :: b in Leaves(h.trie) <==> b.key in h.Bindings() && h.Bindings()[b.key] == b.value
  {
    hide WellFormed, Anchored;
    LeavesOnce(h.hf, h.trie, 0);
    forall b
      ensures b in Leaves(h.trie) <==> b.key in h.Bindings() && h.Bindings()[b.key] == b.value
    {
      LeafIffFound(h.hf, h.trie, b, 0);
      BindingIsFind(h.hf, h.trie, b.key);
    }
  }
}
