/** The nodes of March's own persistent trie (src/hamt.h, src/hamt.c:47-90): headers with a
    bitmap and a cached count, tagged leaf slots, and memory that only grows. */
module MarchNodes {
  import opened Wrappers
  import opened Words
  import opened Bitmap
  import opened HashTrie
  import opened TrieUpdate
  import opened TrieMap

  const LEVELS: nat := 13
  const COUNT_MODULUS: nat := 0x1_0000_0000

  /** Thirteen levels of five bits cover a 64-bit hash; values have their low bit clear. */
  type MarchHash = hf: HashFn | hf.depths == LEVELS && hf.grain == 2 witness HashFn((k, g) => 0, LEVELS, 2)

  type U64 = w: int | 0 <= w < 0x1_0000_0000_0000_0000

  function Hashing(hash: Key -> U64): MarchHash {
    HashFn((k, g) => hash(k), LEVELS, 2)
  }

  datatype Slot = Slot(key: nat, value: nat)

  /** Header and slot array of a node. */
  datatype Cell = Cell(bitmap: nat, count: nat, slots: seq<Slot>)

  type Store = map<Ptr, Cell>

  function TagValue(v: nat): nat {
    v - v % 2 + 1
  }

  function UntagValue(w: nat): nat {
    w - w % 2
  }

  predicate IsTagged(w: nat) {
    w % 2 == 1
  }

  /** The empty trie is NULL. */
  const EMPTY: Trie := Node(0, 0, [])

  function SlotOf(t: Trie, key: nat): Slot {
    match t
    case Leaf(k, v) => Slot(k, TagValue(v))
    case Node(p, _, _) => Slot(key, p)
  }

  function CountOf(t: Trie): nat {
    |Leaves(t)| % COUNT_MODULUS
  }

  /** The store holds the trie: bitmaps, slots in order, and in every header the number of
      bindings below. A branch slot's key field means nothing. */
  ghost predicate Represents(s: Store, t: Trie) {
    t.Node? ==>
      if t.rows == [] then t == EMPTY
      else
        && t.ptr != 0 && t.ptr % 2 == 0 && t.ptr in s && HeaderOf(s[t.ptr], t)
        && forall i | 0 <= i < |t.rows| :: Represents(s, t.rows[i]) && (t.rows[i].Node? ==> t.rows[i].rows != [])
  }

  ghost predicate HeaderOf(cell: Cell, t: Trie)
    requires t.Node?
  {
    && cell.bitmap == t.bitmap && cell.count == CountOf(t) && |cell.slots| == |t.rows|
    && forall i | 0 <= i < |t.rows| :: cell.slots[i] == SlotOf(t.rows[i], cell.slots[i].key)
  }

  /** Nodes already in the store never change. */
  ghost predicate Grows(s: Store, s': Store) {
    forall p | p in s :: p in s' && s'[p] == s[p]
  }

  /** Every older root keeps its meaning. */
  lemma {:induction false} StillRepresented(s: Store, s': Store, t: Trie)
    requires Represents(s, t) && Grows(s, s')
    ensures Represents(s', t)
    decreases t
  {
    if t.Node? && t.rows != [] {
      forall i | 0 <= i < |t.rows|
        ensures Represents(s', t.rows[i])
      {
        StillRepresented(s, s', t.rows[i]);
      }
    }
  }

  /** A root stands for one trie only. */
  lemma {:induction false} OneTrie(s: Store, t: Trie, u: Trie)
    requires t.Node? && u.Node? && t.ptr == u.ptr && Represents(s, t) && Represents(s, u) && Even(t) && Even(u)
    ensures t == u
    decreases t
  {
    if t.rows != [] {
      forall i | 0 <= i < |t.rows|
        ensures t.rows[i] == u.rows[i]
      {
        var x, y := t.rows[i], u.rows[i];
        assert Represents(s, x) && Represents(s, y) && Even(x) && Even(y);
        if x.Node? && y.Node? {
          OneTrie(s, x, y);
        }
      }
    }
  }

  ghost predicate Even(t: Trie) {
    match t
    case Leaf(_, v) => v % 2 == 0
    case Node(_, _, rows) => forall i | 0 <= i < |rows| :: Even(rows[i])
  }

  lemma {:induction false} ValuesEven(hf: MarchHash, t: Trie, d: nat)
    requires WellFormed(hf, t, d)
    ensures Even(t)
    decreases t
  {
    if t.Node? {
      forall i | 0 <= i < |t.rows|
        ensures Even(t.rows[i])
      {
        ValuesEven(hf, t.rows[i], d + 1);
      }
    }
  }

  class Nodes {
    var cells: Store

    constructor ()
      ensures cells == map[]
    {
      cells := map[];
    }

    /** hamt_alloc_node: a new node with copies of the slots. */
    method AllocNode(bitmap: nat, count: nat, slots: seq<Slot>) returns (p: Ptr)
      modifies this
      ensures p != 0 && p % 2 == 0 && p !in old(cells)
      ensures cells == old(cells)[p := Cell(bitmap, count, slots)]
    {
      var m := Largest(cells.Keys);
      assert 2 * (m + 1) !in cells;
      p :| p != 0 && p % 2 == 0 && p !in cells;
      cells := cells[p := Cell(bitmap, count, slots)];
    }

    /** hamt_clone_node. */
    method CloneNode(node: Ptr) returns (p: Ptr)
      requires node in cells
      modifies this
      ensures p != 0 && p % 2 == 0 && p !in old(cells)
      ensures cells == old(cells)[p := old(cells)[node]]
    {
      p := AllocNode(cells[node].bitmap, cells[node].count, cells[node].slots);
    }

    method SetSlot(p: Ptr, i: nat, slot: Slot)
      requires p in cells && i < |cells[p].slots|
      modifies this
      ensures cells == old(cells)[p := old(cells)[p].(slots := old(cells)[p].slots[i := slot])]
    {
      cells := cells[p := cells[p].(slots := cells[p].slots[i := slot])];
    }

    method SetCount(p: Ptr, count: nat)
      requires p in cells
      modifies this
      ensures cells == old(cells)[p := old(cells)[p].(count := count)]
    {
      cells := cells[p := cells[p].(count := count)];
    }
  }

  // ----- Tries at other addresses -----

  /** Where a node lies does not matter to its bindings. */
  lemma Moved(hf: HashFn, t: Trie, p: Ptr, d: nat)
    requires t.Node?
    ensures var u := t.(ptr := p);
      Keys(u) == Keys(t) && (WellFormed(hf, u, d) <==> WellFormed(hf, t, d)) && SameBindings(hf, t, u, d) && Leaves(u) == Leaves(t)
  {
    var u := t.(ptr := p);
    forall k
      ensures Alike(hf, t, u, k, d)
    {
    }
  }

  ghost predicate Changed(hf: HashFn, t: Trie, u: Trie, k: Key, v: Option<nat>, d: nat) {
    WellFormed(hf, u, d) && OnlyAdds(t, u, k) && Updates(hf, t, u, k, v, d)
  }

  lemma ChangedMoved(hf: HashFn, t: Trie, u: Trie, k: Key, v: Option<nat>, d: nat, p: Ptr)
    requires u.Node? && Changed(hf, t, u, k, v, d)
    ensures Changed(hf, t, u.(ptr := p), k, v, d)
  {
    hide WellFormed, Find;
    var u' := u.(ptr := p);
    Moved(hf, u, p, d);
    forall k'
      ensures UpdatesAt(hf, t, u', k, v, k', d)
    {
      assert UpdatesAt(hf, t, u, k, v, k', d) && Alike(hf, u, u', k', d);
    }
  }

  /** One change after another of the same key. */
  lemma ChangedTwice(hf: HashFn, t: Trie, u: Trie, w: Trie, k: Key, v: Option<nat>, v': Option<nat>, d: nat)
    requires Changed(hf, t, u, k, v, d) && Changed(hf, u, w, k, v', d)
    ensures Changed(hf, t, w, k, v', d)
  {
    hide WellFormed, Find;
    forall k'
      ensures UpdatesAt(hf, t, w, k, v', k', d)
    {
      assert UpdatesAt(hf, t, u, k, v, k', d) && UpdatesAt(hf, u, w, k, v', k', d);
    }
  }

  /** The only binding below a row goes, and the row with it. */
  lemma RowEmptied(hf: HashFn, t: Trie, k: Key, d: nat, p: Ptr)
    requires t.Node? && WellFormed(hf, t, d) && Has(t.bitmap, ChunkOf(hf, k, d)) && RowFor(hf, t, k, d) < |t.rows|
    requires var x := t.rows[RowFor(hf, t, k, d)];
      Find(hf, x, k, d + 1).Some? && Changed(hf, x, EMPTY, k, None, d + 1)
    ensures Changed(hf, t, DeleteRow(t, ChunkOf(hf, k, d), p), k, None, d)
  {
    hide Has, Popcount, WellFormed;
    var c, r := ChunkOf(hf, k, d), RowFor(hf, t, k, d);
    var x := t.rows[r];
    var v := Find(hf, x, k, d + 1).value;
    var s := Leaf(k, v);
    var u := t.(rows := t.rows[r := s]);
    StorableValue(hf, t, k, d, r);
    LeafForRow(hf, x, k, v, d + 1);
    RowReplaced(hf, t, k, Some(v), d, s);
    RowDeleted(hf, u, k, d, p);
    assert DeleteRow(u, c, p) == DeleteRow(t, c, p);
    ChangedTwice(hf, t, u, DeleteRow(t, c, p), k, Some(v), None, d);
  }

  lemma {:induction false} StorableFound(hf: HashFn, t: Trie, k: Key, d: nat)
    requires WellFormed(hf, t, d) && Find(hf, t, k, d).Some?
    ensures Storable(hf, Find(hf, t, k, d).value)
    decreases t
  {
    if t.Node? {
      StorableFound(hf, t.rows[RowFor(hf, t, k, d)], k, d + 1);
    }
  }

  lemma StorableValue(hf: HashFn, t: Trie, k: Key, d: nat, r: nat)
    requires t.Node? && WellFormed(hf, t, d) && r < |t.rows| && Find(hf, t.rows[r], k, d + 1).Some?
    ensures WellFormed(hf, Leaf(k, Find(hf, t.rows[r], k, d + 1).value), d + 1)
  {
    assert WellFormed(hf, t.rows[r], d + 1);
    StorableFound(hf, t.rows[r], k, d + 1);
  }

  lemma LeafForRow(hf: HashFn, x: Trie, k: Key, v: nat, d: nat)
    requires Find(hf, x, k, d) == Some(v) && Updates(hf, x, EMPTY, k, None, d)
    ensures Updates(hf, x, Leaf(k, v), k, Some(v), d) && OnlyAdds(x, Leaf(k, v), k)
  {
    forall k'
      ensures UpdatesAt(hf, x, Leaf(k, v), k, Some(v), k', d)
    {
      assert UpdatesAt(hf, x, EMPTY, k, None, k', d);
      assert Find(hf, EMPTY, k', d) == None by { NoBits(ChunkOf(hf, k', d)); }
    }
  }
}
