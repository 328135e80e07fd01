/** March's persistent trie (src/hamt.c:96-437): get, set and remove by path copying. */
module MarchHamt {
  import opened Wrappers
  import opened Bitmap
  import opened HashTrie
  import opened TrieUpdate
  import opened TrieMap
  import opened MarchNodes

  // ----- Building a node -----

  lemma Built(s: Store, s': Store, u: Trie)
    requires u.Node? && u.rows != [] && u.ptr != 0 && u.ptr % 2 == 0 && u.ptr in s' && Grows(s, s') && HeaderOf(s'[u.ptr], u)
    requires forall i | 0 <= i < |u.rows| :: Represents(s, u.rows[i]) && (u.rows[i].Node? ==> u.rows[i].rows != [])
    ensures Represents(s', u)
  {
    forall i | 0 <= i < |u.rows|
      ensures Represents(s', u.rows[i])
    {
      StillRepresented(s, s', u.rows[i]);
    }
  }

  /** The cell a root points to. */
  lemma CellFacts(hf: MarchHash, s: Store, t: Trie, d: nat)
    requires t.Node? && Represents(s, t) && WellFormed(hf, t, d)
    ensures t.ptr == 0 <==> t.rows == []
    ensures t.rows != [] ==> t.ptr in s && HeaderOf(s[t.ptr], t)
    ensures t.rows == [] ==> t == EMPTY
    ensures |t.rows| == Popcount(t.bitmap)
    ensures forall i | 0 <= i < |t.rows| :: Represents(s, t.rows[i]) && (t.rows[i].Node? ==> t.rows[i].rows != [] && t.rows[i].ptr != 0)
    ensures forall i | 0 <= i < |t.rows| :: WellFormed(hf, t.rows[i], d + 1)
  {
  }

  lemma SlotFacts(hf: MarchHash, s: Store, t: Trie, k: Key, d: nat)
    requires t.Node? && t.rows != [] && Represents(s, t) && WellFormed(hf, t, d) && Has(t.bitmap, ChunkOf(hf, k, d))
    ensures var r := RowFor(hf, t, k, d); r < |t.rows| && t.ptr in s && r < |s[t.ptr].slots|
    ensures var r := RowFor(hf, t, k, d); var x, slot := t.rows[r], s[t.ptr].slots[r];
      && (IsTagged(slot.value) <==> x.Leaf?)
      && (x.Leaf? ==> slot.key == x.key && UntagValue(slot.value) == x.value && x.value % 2 == 0)
      && (x.Node? ==> slot.value == x.ptr && x.ptr != 0 && x.rows != [] && d + 1 < LEVELS)
      && Represents(s, x) && WellFormed(hf, x, d + 1) && SharesChunk(hf, x, d, ChunkOf(hf, k, d))
      && Find(hf, t, k, d) == Find(hf, x, k, d + 1)
  {
    hide Popcount, Has;
    BitAtRank(t.bitmap, ChunkOf(hf, k, d));
  }

  // ----- get -----

  /** hamt_get, on any root the store represents. */
  method Get(nodes: Nodes, hf: MarchHash, root: Ptr, key: Key, ghost t: Trie) returns (value: nat)
    requires t.Node? && t.ptr == root && Represents(nodes.cells, t) && WellFormed(hf, t, 0)
    ensures value == if Find(hf, t, key, 0).Some? then Find(hf, t, key, 0).value else 0
  {
    hide WellFormed, Represents, Has, Popcount, Find, SharesChunk;
    var node, level := root, 0;
    ghost var u := t;
    var hash := hf.code(key, 0);
    while node != 0
      invariant u.Node? && u.ptr == node && Represents(nodes.cells, u) && WellFormed(hf, u, level)
      invariant Find(hf, t, key, 0) == Find(hf, u, key, level)
      decreases u
    {
      CellFacts(hf, nodes.cells, u, level);
      var cell := nodes.cells[node];
      var chunk := Chunk(hash, level);
      if !Has(cell.bitmap, chunk) {
        NoSlot(hf, u, key, level);
        return 0;
      }
      var idx := Rank(cell.bitmap, chunk);
      SlotFacts(hf, nodes.cells, u, key, level);
      var slot := cell.slots[idx];
      if IsTagged(slot.value) {
        LeafSays(hf, u.rows[idx], key, level + 1);
        if slot.key == key {
          return UntagValue(slot.value);
        } else {
          return 0;
        }
      }
      u := u.rows[idx];
      node, level := slot.value, level + 1;
    }
    CellFacts(hf, nodes.cells, u, level);
    EmptySays(hf, key, level);
    return 0;
  }

  lemma NoSlot(hf: HashFn, t: Trie, k: Key, d: nat)
    requires t.Node? && !Has(t.bitmap, ChunkOf(hf, k, d))
    ensures Find(hf, t, k, d) == None
  {
  }

  lemma LeafSays(hf: HashFn, x: Trie, k: Key, d: nat)
    requires x.Leaf?
    ensures Find(hf, x, k, d) == if x.key == k then Some(x.value) else None
  {
  }

  lemma EmptySays(hf: HashFn, k: Key, d: nat)
    ensures Find(hf, EMPTY, k, d) == None
  {
  }

  // ----- set -----

  lemma CountSteps(n: nat)
    ensures (n % COUNT_MODULUS + 1) % COUNT_MODULUS == (n + 1) % COUNT_MODULUS
    ensures n > 0 ==> (n % COUNT_MODULUS + COUNT_MODULUS - 1) % COUNT_MODULUS == (n - 1) % COUNT_MODULUS
  {
  }

  /** All keys below this node have gone the key's way so far. */
  ghost predicate OnWay(hf: MarchHash, t: Trie, k: Key, d: nat) {
    forall x | x in Keys(t) :: SameWay(hf, x, k, 0, d)
  }

  /** A leaf row for a chunk that had none, in a new node. */
  lemma SlotInserted(hf: MarchHash, s: Store, s': Store, t: Trie, k: Key, v: nat, d: nat, p: Ptr, slots: seq<Slot>)
    requires t.Node? && Represents(s, t) && WellFormed(hf, t, d) && !Has(t.bitmap, ChunkOf(hf, k, d)) && v % 2 == 0
    requires var r := Rank(t.bitmap, ChunkOf(hf, k, d)); var was := if t.rows == [] then [] else s[t.ptr].slots;
      r <= |was| && slots == was[..r] + [Slot(k, TagValue(v))] + was[r..]
    requires p != 0 && p % 2 == 0 && p !in s && s' == s[p := Cell(Set(t.bitmap, ChunkOf(hf, k, d)), (CountOf(t) + 1) % COUNT_MODULUS, slots)]
    ensures Rank(t.bitmap, ChunkOf(hf, k, d)) <= |t.rows|
    ensures var u := InsertRow(t, ChunkOf(hf, k, d), Leaf(k, v), p);
      Represents(s', u) && Changed(hf, t, u, k, Some(v), d) && u.rows != []
  {
    hide Popcount, Has, Set, WellFormed, Updates, OnlyAdds, Find, Leaves;
    var c := ChunkOf(hf, k, d);
    CellFacts(hf, s, t, d);
    RowInserted(hf, t, k, v, d, p);
    var u, r := InsertRow(t, c, Leaf(k, v), p), Rank(t.bitmap, c);
    NoSlot(hf, t, k, d);
    CountAfter(hf, t, u, k, Some(v), d);
    CountSteps(|Leaves(t)|);
    forall i | 0 <= i < |u.rows|
      ensures Represents(s, u.rows[i]) && (u.rows[i].Node? ==> u.rows[i].rows != [])
      ensures slots[i] == SlotOf(u.rows[i], slots[i].key)
    {
      if i < r {
        assert u.rows[i] == t.rows[i];
      } else if i > r {
        assert u.rows[i] == t.rows[i - 1];
      }
    }
    Built(s, s', u);
  }

  /** One row exchanged in a clone. */
  lemma RowExchanged(hf: MarchHash, s: Store, s': Store, t: Trie, k: Key, v: Option<nat>, d: nat, p: Ptr, x: Trie, slot: Slot)
    requires t.Node? && t.rows != [] && Represents(s, t) && WellFormed(hf, t, d) && Has(t.bitmap, ChunkOf(hf, k, d))
    requires RowFor(hf, t, k, d) < |t.rows| && Changed(hf, t.rows[RowFor(hf, t, k, d)], x, k, v, d + 1)
    requires Represents(s', x) && slot == SlotOf(x, slot.key) && (x.Node? ==> x.rows != [])
    requires Grows(s, s') && p != 0 && p % 2 == 0 && p in s'
    requires var u := t.(rows := t.rows[RowFor(hf, t, k, d) := x]);
      s'[p] == Cell(t.bitmap, CountOf(u), s[t.ptr].slots[RowFor(hf, t, k, d) := slot])
    ensures var u := Node(p, t.bitmap, t.rows[RowFor(hf, t, k, d) := x]);
      Represents(s', u) && Changed(hf, t, u, k, v, d) && u.rows != []
  {
    hide Popcount, Has, WellFormed, Updates, OnlyAdds, Find;
    CellFacts(hf, s, t, d);
    var r := RowFor(hf, t, k, d);
    var w := t.(rows := t.rows[r := x]);
    var u := w.(ptr := p);
    RowReplaced(hf, t, k, v, d, x);
    ChangedMoved(hf, t, w, k, v, d, p);
    Moved(hf, w, p, d);
    forall i | 0 <= i < |u.rows|
      ensures Represents(s', u.rows[i]) && (u.rows[i].Node? ==> u.rows[i].rows != [])
    {
      if i != r {
        assert u.rows[i] == t.rows[i];
        StillRepresented(s, s', u.rows[i]);
      }
    }
    Built(s', s', u);
  }

  /** Two leaves made one after the other in an empty child stand for the old leaf and a new one. */
  lemma PushedDown(hf: MarchHash, x: Trie, c: Trie, c': Trie, k: Key, v: nat, d: nat)
    requires x.Leaf? && Changed(hf, EMPTY, c, x.key, Some(x.value), d) && Changed(hf, c, c', k, Some(v), d)
    ensures Changed(hf, x, c', k, Some(v), d)
  {
    hide WellFormed;
    forall k'
      ensures UpdatesAt(hf, x, c', k, Some(v), k', d)
    {
      assert UpdatesAt(hf, EMPTY, c, x.key, Some(x.value), k', d) && UpdatesAt(hf, c, c', k, Some(v), k', d);
      EmptySays(hf, k', d);
    }
  }

  /** A row exchanged for itself. */
  lemma SameAgain(hf: MarchHash, t: Trie, k: Key, v: Option<nat>, d: nat)
    requires t.Node? && WellFormed(hf, t, d) && Has(t.bitmap, ChunkOf(hf, k, d)) && RowFor(hf, t, k, d) < |t.rows|
    requires var x := t.rows[RowFor(hf, t, k, d)]; Changed(hf, x, x, k, v, d + 1)
    ensures Changed(hf, t, t, k, v, d) && Find(hf, t, k, d) == v
  {
    hide Has, Popcount;
    var r := RowFor(hf, t, k, d);
    RowReplaced(hf, t, k, v, d, t.rows[r]);
    assert t.(rows := t.rows[r := t.rows[r]]) == t;
    assert UpdatesAt(hf, t, t, k, v, k, d);
  }

  lemma OnWayBelow(hf: MarchHash, t: Trie, k: Key, d: nat, r: nat)
    requires t.Node? && r < |t.rows| && OnWay(hf, t, k, d) && SharesChunk(hf, t.rows[r], d, ChunkOf(hf, k, d))
    ensures OnWay(hf, t.rows[r], k, d + 1) && Keys(t.rows[r]) <= Keys(t)
  {
    forall x | x in Keys(t.rows[r])
      ensures SameWay(hf, x, k, 0, d + 1)
    {
      assert x in Keys(t);
    }
  }

  lemma FewerDistinct(hf: MarchHash, keys: set<Key>, part: set<Key>)
    requires Distinct(hf, keys) && part <= keys
    ensures Distinct(hf, part)
  {
  }

  /** Two distinct keys that have come this far together: there is a next level, of 13. */
  lemma NextLevel(hf: MarchHash, t: Trie, r: nat, k: Key, d: nat)
    requires t.Node? && r < |t.rows| && t.rows[r].Leaf? && t.rows[r].key != k
    requires OnWay(hf, t, k, d) && SharesChunk(hf, t.rows[r], d, ChunkOf(hf, k, d)) && Distinct(hf, Keys(t) + {k})
    ensures d + 1 < LEVELS && SameWay(hf, t.rows[r].key, k, 0, d + 1) && Distinct(hf, {t.rows[r].key, k})
  {
    var x := t.rows[r].key;
    assert x in Keys(t.rows[r]);
    OnWayBelow(hf, t, k, d, r);
    assert !SameHash(hf, x, k);
    PartBefore(hf, x, k, d + 1);
  }

  /** How exchanging the key's row changes the count. */
  lemma RowCounted(hf: MarchHash, t: Trie, k: Key, v: Option<nat>, d: nat, x: Trie)
    requires t.Node? && WellFormed(hf, t, d) && Has(t.bitmap, ChunkOf(hf, k, d)) && RowFor(hf, t, k, d) < |t.rows|
    requires Changed(hf, t.rows[RowFor(hf, t, k, d)], x, k, v, d + 1)
    ensures var u := t.(rows := t.rows[RowFor(hf, t, k, d) := x]); var bound := Find(hf, t.rows[RowFor(hf, t, k, d)], k, d + 1).Some?;
      && (v.Some? ==> CountOf(u) == if bound then CountOf(t) else (CountOf(t) + 1) % COUNT_MODULUS)
      && (v.None? && bound ==> CountOf(u) == (CountOf(t) + COUNT_MODULUS - 1) % COUNT_MODULUS)
  {
    hide WellFormed, Has, Popcount, Leaves, Updates;
    var u := t.(rows := t.rows[RowFor(hf, t, k, d) := x]);
    RowReplaced(hf, t, k, v, d, x);
    CountAfter(hf, t, u, k, v, d);
    CountSteps(|Leaves(t)|);
  }

  /** The clone with its row and its count in place. */
  lemma WithRow(hf: MarchHash, s: Store, s': Store, t: Trie, k: Key, v: Option<nat>, d: nat, p: Ptr, x: Trie, slot: Slot)
    returns (u: Trie)
    requires t.Node? && t.rows != [] && Represents(s, t) && WellFormed(hf, t, d) && Has(t.bitmap, ChunkOf(hf, k, d))
    requires RowFor(hf, t, k, d) < |t.rows| && Changed(hf, t.rows[RowFor(hf, t, k, d)], x, k, v, d + 1)
    requires Represents(s', x) && slot == SlotOf(x, slot.key) && (x.Node? ==> x.rows != [])
    requires Grows(s, s') && p != 0 && p % 2 == 0 && p in s' && t.ptr in s
    requires RowFor(hf, t, k, d) < |s[t.ptr].slots|
    requires s'[p].bitmap == s[t.ptr].bitmap && s'[p].slots == s[t.ptr].slots[RowFor(hf, t, k, d) := slot]
    requires var bound := Find(hf, t.rows[RowFor(hf, t, k, d)], k, d + 1).Some?;
      if v.Some? then s'[p].count == if bound then s[t.ptr].count else (s[t.ptr].count + 1) % COUNT_MODULUS
      else bound && s'[p].count == (s[t.ptr].count + COUNT_MODULUS - 1) % COUNT_MODULUS
    ensures u.Node? && u.ptr == p && u.rows != [] && Represents(s', u) && Changed(hf, t, u, k, v, d)
  {
    hide WellFormed, Represents, Has, Popcount, Find, Changed, CountOf;
    CellFacts(hf, s, t, d);
    RowCounted(hf, t, k, v, d, x);
    RowExchanged(hf, s, s', t, k, v, d, p, x, slot);
    u := Node(p, t.bitmap, t.rows[RowFor(hf, t, k, d) := x]);
  }

  lemma LeafSet(hf: MarchHash, s: Store, x: Trie, k: Key, value: nat, d: nat)
    requires x.Leaf? && x.key == k
    ensures var y := Leaf(k, UntagValue(value));
      Represents(s, y) && Changed(hf, x, y, k, Some(y.value), d) && SlotOf(y, k) == Slot(k, TagValue(value)) && Find(hf, x, k, d).Some?
  {
    var y := Leaf(k, UntagValue(value));
    assert TagValue(y.value) == TagValue(value);
    forall k'
      ensures UpdatesAt(hf, x, y, k, Some(y.value), k', d)
    {
    }
  }

  lemma StartEmpty(hf: MarchHash, s: Store, k: Key, d: nat)
    requires d < LEVELS
    ensures Represents(s, EMPTY) && WellFormed(hf, EMPTY, d) && OnWay(hf, EMPTY, k, d) && Keys(EMPTY) == {}
  {
    EmptyFits(32);
  }

  lemma OnWayNext(hf: MarchHash, c: Trie, x: Trie, k: Key, d: nat)
    requires x.Leaf? && (exists v :: Changed(hf, EMPTY, c, x.key, Some(v), d)) && SameWay(hf, x.key, k, 0, d)
    ensures OnWay(hf, c, k, d) && Keys(c) <= {x.key}
    ensures x.key != k ==> Find(hf, c, k, d).None?
  {
    var v :| Changed(hf, EMPTY, c, x.key, Some(v), d);
    assert Keys(EMPTY) == {};
    assert UpdatesAt(hf, EMPTY, c, x.key, Some(v), k, d);
    EmptySays(hf, k, d);
  }

  /** The same child means the same trie. */
  lemma SameChild(hf: MarchHash, s: Store, s': Store, t: Trie, k: Key, v: Option<nat>, d: nat, x: Trie)
    requires t.Node? && Represents(s, t) && WellFormed(hf, t, d) && Grows(s, s')
    requires Has(t.bitmap, ChunkOf(hf, k, d)) && RowFor(hf, t, k, d) < |t.rows|
    requires var y := t.rows[RowFor(hf, t, k, d)];
      y.Node? && x.Node? && x.ptr == y.ptr && Represents(s, y) && Represents(s', x) && Changed(hf, y, x, k, v, d + 1) && WellFormed(hf, y, d + 1)
    ensures Represents(s', t) && Changed(hf, t, t, k, v, d) && Find(hf, t, k, d) == v && x == t.rows[RowFor(hf, t, k, d)]
  {
    hide Has, Popcount, Find, Represents, WellFormed, Updates;
    var y := t.rows[RowFor(hf, t, k, d)];
    StillRepresented(s, s', t);
    StillRepresented(s, s', y);
    ValuesEven(hf, x, d + 1);
    ValuesEven(hf, y, d + 1);
    OneTrie(s', x, y);
    SameAgain(hf, t, k, v, d);
  }

  /** hamt_set_impl. */
  method SetImpl(nodes: Nodes, hf: MarchHash, node: Ptr, key: Key, value: nat, hash: nat, level: nat, inserted: bool, ghost t: Trie)
    returns (result: Ptr, ins: bool, ghost u: Trie)
    requires t.Node? && t.ptr == node && Represents(nodes.cells, t) && WellFormed(hf, t, level) && level < LEVELS
    requires hash == hf.code(key, 0) && OnWay(hf, t, key, level) && Distinct(hf, Keys(t) + {key})
    requires inserted ==> Find(hf, t, key, level).None?
    modifies nodes
    ensures Grows(old(nodes.cells), nodes.cells)
    ensures u.Node? && u.ptr == result && u.rows != [] && Represents(nodes.cells, u)
    ensures Changed(hf, t, u, key, Some(UntagValue(value)), level)
    ensures ins <==> Find(hf, t, key, level).None?
    decreases LEVELS - level, 1
  {
    hide WellFormed, Represents, Has, Popcount, Set, Find, SharesChunk, Changed, OnWay, Distinct, Keys, SameWay;
    ghost var s, v := nodes.cells, UntagValue(value);
    CellFacts(hf, s, t, level);
    var chunk := Chunk(hash, level);
    if node == 0 {
      NoBits(chunk);
      result := nodes.AllocNode(Set(0, chunk), 1, [Slot(key, TagValue(value))]);
      SlotInserted(hf, s, nodes.cells, t, key, v, level, result, [Slot(key, TagValue(value))]);
      NoSlot(hf, t, key, level);
      return result, true, InsertRow(t, chunk, Leaf(key, v), result);
    }
    var cell := nodes.cells[node];
    if !Has(cell.bitmap, chunk) {
      var newIdx := Rank(cell.bitmap, chunk);
      RankBounds(t.bitmap, chunk);
      var slots := cell.slots[..newIdx] + [Slot(key, TagValue(value))] + cell.slots[newIdx..];
      result := nodes.AllocNode(Set(cell.bitmap, chunk), (cell.count + 1) % COUNT_MODULUS, slots);
      SlotInserted(hf, s, nodes.cells, t, key, v, level, result, slots);
      NoSlot(hf, t, key, level);
      return result, true, InsertRow(t, chunk, Leaf(key, v), result);
    }
    result, ins, u := SetInSlot(nodes, hf, node, key, value, hash, level, inserted, t);
  }

  /** The second half of hamt_set_impl: the slot exists. */
  method SetInSlot(nodes: Nodes, hf: MarchHash, node: Ptr, key: Key, value: nat, hash: nat, level: nat, inserted: bool, ghost t: Trie)
    returns (result: Ptr, ins: bool, ghost u: Trie)
    requires t.Node? && t.ptr == node && t.rows != [] && Represents(nodes.cells, t) && WellFormed(hf, t, level) && level < LEVELS
    requires hash == hf.code(key, 0) && OnWay(hf, t, key, level) && Distinct(hf, Keys(t) + {key})
    requires Has(t.bitmap, Chunk(hash, level))
    requires inserted ==> Find(hf, t, key, level).None?
    modifies nodes
    ensures Grows(old(nodes.cells), nodes.cells)
    ensures u.Node? && u.ptr == result && u.rows != [] && Represents(nodes.cells, u)
    ensures Changed(hf, t, u, key, Some(UntagValue(value)), level)
    ensures ins <==> Find(hf, t, key, level).None?
    decreases LEVELS - level, 0
  {
    hide WellFormed, Represents, Has, Popcount, Set, Find, SharesChunk, OnlyAdds, Updates, OnWay, Distinct, Keys, SameWay, CountOf;
    ghost var s, v, chunk := nodes.cells, UntagValue(value), Chunk(hash, level);
    CellFacts(hf, s, t, level);
    SlotFacts(hf, s, t, key, level);
    var cell := nodes.cells[node];
    var idx := Rank(cell.bitmap, Chunk(hash, level));
    var slot := cell.slots[idx];
    ghost var x := t.rows[idx];
    ins := inserted;
    if IsTagged(slot.value) && slot.key == key {
      result := nodes.CloneNode(node);
      nodes.SetSlot(result, idx, Slot(slot.key, TagValue(value)));
      LeafSet(hf, nodes.cells, x, key, value, level + 1);
      u := WithRow(hf, s, nodes.cells, t, key, Some(v), level, result, Leaf(key, v), Slot(slot.key, TagValue(value)));
    } else if IsTagged(slot.value) {
      var oldKey, oldValue := slot.key, UntagValue(slot.value);
      NextLevel(hf, t, idx, key, level);
      StartEmpty(hf, s, oldKey, level + 1);
      EmptySays(hf, oldKey, level + 1);
      FewerDistinct(hf, {x.key, key}, Keys(EMPTY) + {oldKey});
      var child;
      ghost var c, c';
      child, ins, c := SetImpl(nodes, hf, 0, oldKey, oldValue, hf.code(oldKey, 0), level + 1, ins, EMPTY);
      OnWayNext(hf, c, x, key, level + 1);
      FewerDistinct(hf, {x.key, key}, Keys(c) + {key});
      ghost var s1 := nodes.cells;
      child, ins, c' := SetImpl(nodes, hf, child, key, value, hash, level + 1, ins, c);
      PushedDown(hf, x, c, c', key, v, level + 1);
      LeafSays(hf, x, key, level + 1);
      ghost var s2 := nodes.cells;
      result := nodes.CloneNode(node);
      nodes.SetSlot(result, idx, Slot(0, child));
      nodes.SetCount(result, (cell.count + 1) % COUNT_MODULUS);
      StillRepresented(s2, nodes.cells, c');
      u := WithRow(hf, s, nodes.cells, t, key, Some(v), level, result, c', Slot(0, child));
    } else {
      OnWayBelow(hf, t, key, level, idx);
      FewerDistinct(hf, Keys(t) + {key}, Keys(x) + {key});
      var newChild;
      ghost var x';
      newChild, ins, x' := SetImpl(nodes, hf, slot.value, key, value, hash, level + 1, ins, x);
      ghost var s2 := nodes.cells;
      if newChild == slot.value {
        SameChild(hf, s, s2, t, key, Some(v), level, x');
        return node, ins, t;
      }
      result := nodes.CloneNode(node);
      nodes.SetSlot(result, idx, Slot(slot.key, newChild));
      if ins {
        nodes.SetCount(result, (cell.count + 1) % COUNT_MODULUS);
      }
      StillRepresented(s2, nodes.cells, x');
      u := WithRow(hf, s, nodes.cells, t, key, Some(v), level, result, x', Slot(slot.key, newChild));
    }
  }

  // ----- remove -----

  /** A row deleted in a new node. */
  lemma SlotDeleted(hf: MarchHash, s: Store, s': Store, t: Trie, k: Key, d: nat, p: Ptr)
    requires t.Node? && |t.rows| > 1 && Represents(s, t) && WellFormed(hf, t, d) && Has(t.bitmap, ChunkOf(hf, k, d))
    requires Find(hf, t, k, d).Some? && Rank(t.bitmap, ChunkOf(hf, k, d)) < |t.rows|
    requires Changed(hf, t, DeleteRow(t, ChunkOf(hf, k, d), p), k, None, d)
    requires p != 0 && p % 2 == 0 && p !in s && t.ptr in s && Rank(t.bitmap, ChunkOf(hf, k, d)) < |s[t.ptr].slots|
    requires var r, cell := Rank(t.bitmap, ChunkOf(hf, k, d)), s[t.ptr];
      s' == s[p := Cell(Clear(cell.bitmap, ChunkOf(hf, k, d)), (cell.count + COUNT_MODULUS - 1) % COUNT_MODULUS,
                        cell.slots[..r] + cell.slots[r + 1..])]
    ensures var u := DeleteRow(t, ChunkOf(hf, k, d), p); Represents(s', u) && u.rows != []
  {
    hide Popcount, Has, Clear, WellFormed, Updates, OnlyAdds, Find, Leaves;
    var c, r := ChunkOf(hf, k, d), Rank(t.bitmap, ChunkOf(hf, k, d));
    var u, slots := DeleteRow(t, c, p), s'[p].slots;
    CellFacts(hf, s, t, d);
    CountAfter(hf, t, u, k, None, d);
    CountSteps(|Leaves(t)|);
    forall i | 0 <= i < |u.rows|
      ensures Represents(s, u.rows[i]) && (u.rows[i].Node? ==> u.rows[i].rows != [])
      ensures slots[i] == SlotOf(u.rows[i], slots[i].key)
    {
      var j := if i < r then i else i + 1;
      assert u.rows[i] == t.rows[j] && slots[i] == s[t.ptr].slots[j];
    }
    Built(s, s', u);
  }

  /** The last row deleted: the node is gone. */
  lemma LastDeleted(hf: MarchHash, s: Store, t: Trie, k: Key, d: nat)
    requires t.Node? && |t.rows| == 1 && WellFormed(hf, t, d) && Has(t.bitmap, ChunkOf(hf, k, d))
    requires Rank(t.bitmap, ChunkOf(hf, k, d)) == 0
    ensures DeleteRow(t, ChunkOf(hf, k, d), 0) == EMPTY && Represents(s, EMPTY)
  {
    var c := ChunkOf(hf, k, d);
    DeletedAt(t, c, 0, c);
    NoRowsNoBits(DeleteRow(t, c, 0).bitmap);
  }

  /** An unbound key: the trie as it is has no such binding. */
  lemma NothingBound(hf: MarchHash, t: Trie, k: Key, d: nat)
    requires WellFormed(hf, t, d) && Find(hf, t, k, d).None?
    ensures Changed(hf, t, t, k, None, d)
  {
    hide WellFormed, Find;
    forall k'
      ensures UpdatesAt(hf, t, t, k, None, k', d)
    {
    }
  }

  /** The slot array without the slot, in a new node; no node when it was the only one. */
  method WithoutSlot(nodes: Nodes, hf: MarchHash, node: Ptr, chunk: nat, idx: nat, key: Key, ghost t: Trie, ghost level: nat)
    returns (result: Ptr, ghost u: Trie)
    requires t.Node? && t.ptr == node && t.rows != [] && Represents(nodes.cells, t) && WellFormed(hf, t, level)
    requires chunk == ChunkOf(hf, key, level) && Has(t.bitmap, chunk) && idx == Rank(t.bitmap, chunk) < |t.rows|
    requires Find(hf, t, key, level).Some?
    requires forall p :: Changed(hf, t, DeleteRow(t, chunk, p), key, None, level)
    modifies nodes
    ensures Grows(old(nodes.cells), nodes.cells)
    ensures u.Node? && u.ptr == result && Represents(nodes.cells, u) && Changed(hf, t, u, key, None, level)
  {
    hide WellFormed, Represents, Has, Popcount, Clear, Find, Changed, CountOf;
    CellFacts(hf, nodes.cells, t, level);
    ghost var s := nodes.cells;
    var cell := nodes.cells[node];
    var oldCount := |cell.slots|;
    if oldCount == 1 {
      LastDeleted(hf, s, t, key, level);
      return 0, EMPTY;
    }
    result := nodes.AllocNode(Clear(cell.bitmap, chunk), (cell.count + COUNT_MODULUS - 1) % COUNT_MODULUS,
                              cell.slots[..idx] + cell.slots[idx + 1..]);
    SlotDeleted(hf, s, nodes.cells, t, key, level, result);
    u := DeleteRow(t, chunk, result);
  }

  /** hamt_remove_impl. */
  method RemoveImpl(nodes: Nodes, hf: MarchHash, node: Ptr, key: Key, hash: nat, level: nat, ghost t: Trie)
    returns (result: Ptr, removed: bool, ghost u: Trie)
    requires t.Node? && t.ptr == node && Represents(nodes.cells, t) && WellFormed(hf, t, level)
    requires hash == hf.code(key, 0)
    modifies nodes
    ensures Grows(old(nodes.cells), nodes.cells)
    ensures u.Node? && u.ptr == result && Represents(nodes.cells, u) && Changed(hf, t, u, key, None, level)
    ensures removed <==> Find(hf, t, key, level).Some?
    ensures !removed ==> result == node && u == t && nodes.cells == old(nodes.cells)
    decreases t
  {
    hide WellFormed, Represents, Has, Popcount, Clear, Find, SharesChunk, Keys, CountOf, Changed;
    ghost var s := nodes.cells;
    result, removed, u := node, false, t;
    CellFacts(hf, s, t, level);
    if node == 0 {
      EmptySays(hf, key, level);
      NothingBound(hf, t, key, level);
      return;
    }
    var chunk := Chunk(hash, level);
    var cell := nodes.cells[node];
    if !Has(cell.bitmap, chunk) {
      NoSlot(hf, t, key, level);
      NothingBound(hf, t, key, level);
      return;
    }
    var idx := Rank(cell.bitmap, chunk);
    SlotFacts(hf, s, t, key, level);
    var slot := cell.slots[idx];
    ghost var x := t.rows[idx];
    if IsTagged(slot.value) {
      LeafSays(hf, x, key, level + 1);
      if slot.key != key {
        NothingBound(hf, t, key, level);
        return;
      }
      forall p
        ensures Changed(hf, t, DeleteRow(t, chunk, p), key, None, level)
      {
        LeafGone(hf, t, key, level, p);
      }
      result, u := WithoutSlot(nodes, hf, node, chunk, idx, key, t, level);
      removed := true;
    } else {
      var newChild;
      ghost var x';
      newChild, removed, x' := RemoveImpl(nodes, hf, slot.value, key, hash, level + 1, x);
      ghost var s1 := nodes.cells;
      if newChild == slot.value {
        SameChild(hf, s, s1, t, key, None, level, x');
        return node, removed, t;
      }
      StillRepresented(s, s1, t);
      CellFacts(hf, s1, t, level);
      ChangedFits(hf, s1, x, x', key, level + 1);
      if newChild == 0 {
        forall p
          ensures Changed(hf, t, DeleteRow(t, chunk, p), key, None, level)
        {
          RowEmptied(hf, t, key, level, p);
        }
        result, u := WithoutSlot(nodes, hf, node, chunk, idx, key, t, level);
        return;
      }
      result := nodes.CloneNode(node);
      nodes.SetSlot(result, idx, Slot(slot.key, newChild));
      if removed {
        nodes.SetCount(result, (cell.count + COUNT_MODULUS - 1) % COUNT_MODULUS);
      }
      StillRepresented(s1, nodes.cells, x');
      u := WithRow(hf, s, nodes.cells, t, key, None, level, result, x', Slot(slot.key, newChild));
    }
  }

  lemma ChangedFits(hf: MarchHash, s: Store, t: Trie, u: Trie, k: Key, d: nat)
    requires u.Node? && Represents(s, u) && Changed(hf, t, u, k, None, d)
    ensures (u.ptr == 0 <==> u.rows == []) && (u.rows == [] ==> u == EMPTY)
  {
  }

  lemma LeafGone(hf: MarchHash, t: Trie, k: Key, d: nat, p: Ptr)
    requires t.Node? && WellFormed(hf, t, d) && Has(t.bitmap, ChunkOf(hf, k, d))
    requires var r := RowFor(hf, t, k, d); r < |t.rows| && t.rows[r].Leaf? && t.rows[r].key == k
    ensures Changed(hf, t, DeleteRow(t, ChunkOf(hf, k, d), p), k, None, d)
  {
    RowDeleted(hf, t, k, d, p);
  }
}
