/** Unbinding a key in libhamt (src/hamt/hamt.c:177-231, 483-562): rows are deleted, and a
    table left with a single value is gathered into its parent. */
module LibRemove {
  import opened Wrappers
  import opened Bitmap
  import opened HashTrie
  import opened TrieUpdate
  import opened LibHeap
  import opened LibMemory
  import opened LibSearch
  import opened LibInsert
  import opened LibSet

  datatype RemoveStatus = RemoveSuccess | Gathered | RemoveNotFound

  ghost predicate CompactAtDepth(t: Trie, d: nat) {
    if d == 0 then CompactRoot(t) else Compact(t)
  }

  /** The key is unbound in u, which stands where the copy of t stood. */
  ghost predicate Removed(hf: LibHash, h: Heap, h': Heap, copy: Loc, own: set<Ptr>, t: Trie, u: Trie, k: Key, d: nat) {
    && Anchored(h', copy, u) && OwnOrNew(h, Tables(t), u) && OnlyChanges(h, h', copy, own, RowOf(u))
    && Unbound(hf, t, u, k, d) && CompactAtDepth(u, d)
  }

  ghost predicate Unbound(hf: LibHash, t: Trie, u: Trie, k: Key, d: nat) {
    WellFormed(hf, u, d) && OnlyAdds(t, u, k) && Updates(hf, t, u, k, None, d)
  }

  // ----- The trie -----

  /** A value row deleted where enough rows are left. */
  lemma RowGone(hf: LibHash, t: Trie, k: Key, d: nat, p: Ptr)
    requires t.Node? && WellFormed(hf, t, d) && CompactAtDepth(t, d) && Has(t.bitmap, ChunkOf(hf, k, d))
    requires var r := RowFor(hf, t, k, d); r < |t.rows| && t.rows[r].Leaf? && t.rows[r].key == k
    requires d == 0 || |t.rows| > 2 || (|t.rows| == 2 && t.rows[1 - RowFor(hf, t, k, d)].Node?)
    ensures var u := DeleteRow(t, ChunkOf(hf, k, d), p); Unbound(hf, t, u, k, d) && CompactAtDepth(u, d)
  {
    hide WellFormed, Updates, OnlyAdds, Has, Popcount;
    var r, u := RowFor(hf, t, k, d), DeleteRow(t, ChunkOf(hf, k, d), p);
    RowDeleted(hf, t, k, d, p);
    forall i | 0 <= i < |u.rows|
      ensures Compact(u.rows[i])
    {
      assert u.rows[i] == t.rows[if i < r then i else i + 1];
    }
  }

  /** Of two value rows, the other one is left. */
  lemma OtherLeft(hf: LibHash, t: Trie, k: Key, d: nat)
    requires t.Node? && WellFormed(hf, t, d) && Has(t.bitmap, ChunkOf(hf, k, d)) && |t.rows| == 2
    requires var r := RowFor(hf, t, k, d);
      r < 2 && t.rows[r].Leaf? && t.rows[r].key == k && t.rows[1 - r].Leaf?
    ensures var u := t.rows[1 - RowFor(hf, t, k, d)]; Unbound(hf, t, u, k, d) && Compact(u)
  {
    hide Has, Popcount;
    var c, r := ChunkOf(hf, k, d), RowFor(hf, t, k, d);
    var u := DeleteRow(t, c, 0);
    RowDeleted(hf, t, k, d, 0);
    assert u.rows == [t.rows[1 - r]];
    SingleValue(hf, u, d);
    SameThenUnbound(hf, t, u, t.rows[1 - r], k, d);
  }

  lemma SameThenUnbound(hf: LibHash, t: Trie, u: Trie, u': Trie, k: Key, d: nat)
    requires Unbound(hf, t, u, k, d) && SameBindings(hf, u, u', d) && Keys(u') == Keys(u) && WellFormed(hf, u', d)
    ensures Unbound(hf, t, u', k, d)
  {
    hide WellFormed, Find;
    forall k'
      ensures UpdatesAt(hf, t, u', k, None, k', d)
    {
      assert UpdatesAt(hf, t, u, k, None, k', d) && Alike(hf, u, u', k', d);
    }
  }

  lemma UnboundFromSame(hf: LibHash, t: Trie, t': Trie, u: Trie, k: Key, d: nat)
    requires Shape(t) == Shape(t') && Unbound(hf, t', u, k, d)
    ensures Unbound(hf, t, u, k, d)
  {
    hide WellFormed, Find, Shape;
    ShapeKeeps(hf, t, t', d);
    forall k'
      ensures UpdatesAt(hf, t, u, k, None, k', d)
    {
      assert UpdatesAt(hf, t', u, k, None, k', d) && Alike(hf, t, t', k', d);
    }
  }

  /** The table row of the key exchanged for what is left of it. */
  lemma ChildGone(hf: LibHash, t: Trie, k: Key, d: nat, s: Trie)
    requires t.Node? && WellFormed(hf, t, d) && CompactAtDepth(t, d) && Has(t.bitmap, ChunkOf(hf, k, d))
    requires RowFor(hf, t, k, d) < |t.rows| && Unbound(hf, t.rows[RowFor(hf, t, k, d)], s, k, d + 1) && Compact(s)
    ensures var u := t.(rows := t.rows[RowFor(hf, t, k, d) := s]);
      Unbound(hf, t, u, k, d) && (d == 0 || |t.rows| > 1 || s.Node? ==> CompactAtDepth(u, d))
    ensures |t.rows| == 1 && s.Leaf? ==> Unbound(hf, t, s, k, d)
  {
    hide Has, Popcount, Find, Updates, OnlyAdds;
    var r := RowFor(hf, t, k, d);
    var u := t.(rows := t.rows[r := s]);
    RowReplaced(hf, t, k, None, d, s);
    if |t.rows| == 1 && s.Leaf? {
      SingleValue(hf, u, d);
      SameThenUnbound(hf, t, u, s, k, d);
    }
  }

  // ----- Memory -----

  lemma RowDropped(h: Heap, h': Heap, loc: Loc, t: Trie, c: nat, p: Ptr)
    requires t.Node? && Anchored(h, loc, t) && |t.rows| == Popcount(t.bitmap) && Has(t.bitmap, c)
    requires var r := Rank(t.bitmap, c); r < |t.rows| && t.rows[r].Leaf?
    requires var r := Rank(t.bitmap, c);
      if |t.rows| > 1 then
        && FreshTable(h, p) && p in h' && h'[p] == RowsOf(t.rows)[..r] + RowsOf(t.rows)[r + 1..]
        && OnlyChanges(h, h', loc, {t.ptr}, Row(p, Clear(t.bitmap, c)))
      else
        p == 0 && OnlyChanges(h, h', loc, {t.ptr}, Row(0, 0))
    ensures Rewrites(h, h', loc, {t.ptr}, t, DeleteRow(t, c, p))
  {
    hide Has, Popcount, Clear, Holds, Separate;
    var r, u := Rank(t.bitmap, c), DeleteRow(t, c, p);
    DeletedAt(t, c, p, c);
    if |t.rows| > 1 {
      DeletedParts(h, t, c, p);
      assert h'[p] == RowsOf(u.rows);
      TableMade(h, h', loc, t, u);
    } else {
      NoRowsNoBits(u.bitmap);
      LastRowDropped(h, h', loc, t, u);
    }
  }

  lemma DeletedParts(h: Heap, t: Trie, c: nat, p: Ptr)
    requires t.Node? && Holds(h, t) && Separate(t) && Rank(t.bitmap, c) < |t.rows|
    ensures var us := DeleteRow(t, c, p).rows;
      && (forall i | 0 <= i < |us| :: PartOf(h, t, us[i]))
      && (forall i, j | 0 <= i < j < |us| :: Tables(us[i]) !! Tables(us[j]))
  {
    hide Holds;
    var r, us := Rank(t.bitmap, c), DeleteRow(t, c, p).rows;
    forall i | 0 <= i < |us|
      ensures PartOf(h, t, us[i])
    {
      RowIsPart(h, t, if i < r then i else i + 1);
    }
    forall i, j | 0 <= i < j < |us|
      ensures Tables(us[i]) !! Tables(us[j])
    {
      var i', j' := if i < r then i else i + 1, if j < r then j else j + 1;
      assert us[i] == t.rows[i'] && us[j] == t.rows[j'];
    }
  }

  lemma LastRowDropped(h: Heap, h': Heap, loc: Loc, t: Trie, u: Trie)
    requires t.Node? && t.rows != [] && Anchored(h, loc, t)
    requires u == Node(0, 0, []) && OnlyChanges(h, h', loc, {t.ptr}, RowOf(u))
    ensures Rewrites(h, h', loc, {t.ptr}, t, u)
  {
    assert t.ptr in Tables(t);
  }

  /** A value row pulled up into the anchor. */
  lemma ValuePulledUp(h: Heap, h': Heap, loc: Loc, t: Trie, x: Trie)
    requires t.Node? && t.rows != [] && x.Leaf? && Anchored(h, loc, t)
    requires OnlyChanges(h, h', loc, {t.ptr}, RowOf(x))
    ensures Rewrites(h, h', loc, {t.ptr}, t, x)
  {
  }

  /** What may change is new, or was the old trie's to begin with. */
  ghost predicate MayChange(h: Heap, own: set<Ptr>, changed: set<Ptr>) {
    forall q | q in changed && q in h :: q in own
  }

  /** Copying first and changing the copy. */
  lemma CopyThenRemove(hf: LibHash, h0: Heap, h: Heap, h': Heap, copy: Loc, own: set<Ptr>, own': set<Ptr>,
                       t: Trie, t2: Trie, u: Trie, k: Key, d: nat)
    requires OnlyChanges(h0, h, copy, {}, RowOf(t2)) && OwnOrNew(h0, Tables(t), t2) && Shape(t) == Shape(t2)
    requires OnlyChanges(h, h', copy, own', RowOf(u)) && Anchored(h', copy, u) && OwnOrNew(h, Tables(t2), u)
    requires MayChange(h0, own, own')
    requires Unbound(hf, t2, u, k, d) && CompactAtDepth(u, d)
    ensures Removed(hf, h0, h', copy, own, t, u, k, d)
  {
    hide Unbound, CompactAtDepth, Shape, Anchored, Tables;
    UnboundFromSame(hf, t, t2, u, k, d);
  }

  /** Only the row was changed, not the anchor of the node. */
  lemma RowChanged(h: Heap, h': Heap, loc: Loc, t: Trie, r: nat, s: Trie)
    requires t.Node? && r < |t.rows| && Anchored(h, loc, t)
    requires OnlyChanges(h, h', Loc(t.ptr, r), {}, RowOf(s))
    ensures OnlyChanges(h, h', loc, {t.ptr}, RowOf(t.(rows := t.rows[r := s])))
  {
    assert t.ptr in Tables(t);
    assert h[loc.table][loc.index := RowOf(t)] == h[loc.table];
  }

  // ----- The root row, seen from below -----

  /** The root row lies outside the part being changed, and so does the root's table. */
  ghost predicate RootAbove(h: Heap, root: Loc, copy: Loc, t: Trie) {
    && root.table in h && root.index < |h[root.table]|
    && root.table != copy.table && root.table !in Tables(t)
    && h[root.table][root.index].word in h && h[root.table][root.index].word !in Tables(t)
  }

  lemma RootBelowTop(h: Heap, copy: Loc, t: Trie, r: nat)
    requires t.Node? && r < |t.rows| && Anchored(h, copy, t)
    ensures RootAbove(h, copy, Loc(t.ptr, r), t.rows[r])
  {
    assert t.ptr in Tables(t);
    TablesOfRow(t, r);
  }

  lemma RootBelow(h0: Heap, h: Heap, root: Loc, copy: Loc, t: Trie, t2: Trie, r: nat)
    requires RootAbove(h0, root, copy, t) && OnlyChanges(h0, h, copy, {}, RowOf(t2)) && Anchored(h, copy, t2)
    requires t.Node? && t2.Node? && t2.rows == t.rows && r < |t.rows|
    requires t2.ptr == t.ptr || t2.ptr !in h0
    ensures RootAbove(h, root, Loc(t2.ptr, r), t2.rows[r])
    ensures h[root.table][root.index].word != t2.ptr
  {
    TablesOfRow(t, r);
    assert t.ptr in Tables(t);
  }

  lemma RootIsNotCopy(h0: Heap, h: Heap, root: Loc, copy: Loc, inPlace: bool, t: Trie, t2: Trie, d: nat)
    requires if d == 0 then root == copy else RootAbove(h0, root, copy, t)
    ensures root == copy <==> d == 0
  {
  }

  // ----- Methods -----

  /** The value row of the key goes. Tables are shrunk while more than a value is left, and
      at the root; otherwise the remaining value is gathered. */
  method RemoveValue(mem: Memory, hf: LibHash, root: Loc, copy: Loc, index: nat, pos: nat, key: Key, ghost t: Trie, ghost d: nat)
    returns (status: RemoveStatus, ghost u: Trie)
    requires root == copy <==> d == 0
    requires t.Node? && WellFormed(hf, t, d) && CompactAtDepth(t, d) && Anchored(mem.tables, copy, t)
    requires index == ChunkOf(hf, key, d) && Has(t.bitmap, index) && pos == Rank(t.bitmap, index) < |t.rows|
    requires t.rows[pos].Leaf? && t.rows[pos].key == key
    modifies mem
    ensures Anchored(mem.tables, copy, u) && OwnOrNew(old(mem.tables), Tables(t), u)
    ensures OnlyChanges(old(mem.tables), mem.tables, copy, {t.ptr}, RowOf(u))
    ensures Unbound(hf, t, u, key, d) && CompactAtDepth(u, d)
    ensures status != RemoveNotFound && (status == Gathered <==> u.Leaf?)
  {
    hide WellFormed, Holds, Separate, Tables, Compact, Has, Popcount, Unbound, Clear, OwnOrNew;
    ghost var h := mem.tables;
    NodeTable(hf, h, copy, t, d);
    RowCounts(t, pos, d);
    var nRows := Popcount(mem.RowAt(copy).other);
    var table := mem.RowAt(copy).word;
    if nRows > 2 || (nRows >= 1 && root == copy) {
      mem.TableShrink(copy, nRows, index, pos, RowsOf(t.rows));
    } else if nRows == 2 {
      var other := Loc(table, if pos == 0 then 1 else 0);
      RowFits(hf, h, copy, t, other.index, d);
      if IsValue(mem.RowAt(other)) {
        mem.TableGather(copy, other.index, nRows);
        u := t.rows[other.index];
        ValuePulledUp(h, mem.tables, copy, t, u);
        OtherLeft(hf, t, key, d);
        return Gathered, u;
      } else {
        mem.TableShrink(copy, nRows, index, pos, RowsOf(t.rows));
      }
    }
    u := DeleteRow(t, index, mem.RowAt(copy).word);
    RowDropped(h, mem.tables, copy, t, index, mem.RowAt(copy).word);
    RowGone(hf, t, key, d, mem.RowAt(copy).word);
    status := RemoveSuccess;
  }

  // ----- The recursion -----

  /** The node after the first lines: itself, or its copy in a new table. */
  ghost predicate Copied(h0: Heap, h: Heap, copy: Loc, inPlace: bool, t: Trie, t2: Trie) {
    && t.Node? && t2.Node? && t2 == t.(ptr := t2.ptr) && Shape(t2) == Shape(t)
    && Anchored(h, copy, t2) && OwnOrNew(h0, Tables(t), t2) && OnlyChanges(h0, h, copy, {}, RowOf(t2))
    && (if inPlace then h0 == h && t2 == t else t2.rows != [] ==> t2.ptr !in h0)
  }

  function Owned(t: Trie, inPlace: bool): set<Ptr> {
    if inPlace then Tables(t) else {}
  }

  lemma NothingRemoved(hf: LibHash, h0: Heap, h: Heap, copy: Loc, inPlace: bool, t: Trie, t2: Trie, k: Key, d: nat)
    requires Copied(h0, h, copy, inPlace, t, t2) && WellFormed(hf, t, d) && CompactAtDepth(t, d)
    requires Find(hf, t, k, d).None?
    ensures Removed(hf, h0, h, copy, Owned(t, inPlace), t, t2, k, d)
  {
    hide Holds, Separate, Tables, Compact;
    ShapeKeeps(hf, t, t2, d);
    forall k'
      ensures UpdatesAt(hf, t, t2, k, None, k', d)
    {
      assert Alike(hf, t, t2, k', d);
    }
  }

  lemma InOneTable(hf: LibHash, h0: Heap, h: Heap, h': Heap, copy: Loc, inPlace: bool, t: Trie, t2: Trie, u: Trie, k: Key, d: nat)
    requires Copied(h0, h, copy, inPlace, t, t2) && t2.rows != []
    requires OnlyChanges(h, h', copy, {t2.ptr}, RowOf(u)) && Anchored(h', copy, u) && OwnOrNew(h, Tables(t2), u)
    requires Unbound(hf, t2, u, k, d) && CompactAtDepth(u, d)
    ensures Removed(hf, h0, h', copy, Owned(t, inPlace), t, u, k, d)
  {
    hide Unbound, CompactAtDepth, Shape, Anchored, OnlyChanges, OwnOrNew, Removed;
    assert t2.ptr in Tables(t2);
    CopyThenRemove(hf, h0, h, h', copy, Owned(t, inPlace), {t2.ptr}, t, t2, u, k, d);
  }

  /** What the recursive call may change, seen from the copied node. */
  function OwnedAbove(t2: Trie, inPlace: bool): set<Ptr>
    requires t2.Node?
  {
    if inPlace then Tables(t2) else {t2.ptr}
  }

  lemma BelowOneRow(hf: LibHash, h0: Heap, h: Heap, h': Heap, copy: Loc, inPlace: bool, t: Trie, t2: Trie, k: Key, d: nat, s: Trie)
    requires Copied(h0, h, copy, inPlace, t, t2) && RowFor(hf, t2, k, d) < |t2.rows|
    requires var r := RowFor(hf, t2, k, d);
      Removed(hf, h, h', Loc(t2.ptr, r), Owned(t2.rows[r], inPlace), t2.rows[r], s, k, d + 1)
    ensures var r := RowFor(hf, t2, k, d); var u := t2.(rows := t2.rows[r := s]);
      && Anchored(h', copy, u) && OwnOrNew(h, Tables(t2), u)
      && OnlyChanges(h, h', copy, OwnedAbove(t2, inPlace), RowOf(u))
      && Unbound(hf, t2.rows[r], s, k, d + 1) && Compact(s)
    ensures h0.Keys <= h.Keys || inPlace
  {
    hide Holds, Separate, Unbound, Shape;
    var r := RowFor(hf, t2, k, d);
    var loc := Loc(t2.ptr, r);
    assert OnlyChanges(h, h', loc, Tables(t2.rows[r]), RowOf(s));
    ChildInPlace(h, h', t2, copy, r, s);
    if !inPlace {
      RowChanged(h, h', copy, t2, r, s);
    }
  }

  lemma MayChangeAbove(h0: Heap, h: Heap, copy: Loc, inPlace: bool, t: Trie, t2: Trie)
    requires Copied(h0, h, copy, inPlace, t, t2) && t2.rows != []
    ensures MayChange(h0, Owned(t, inPlace), OwnedAbove(t2, inPlace)) && t2.ptr in OwnedAbove(t2, inPlace)
  {
  }

  lemma ChildRemoved(hf: LibHash, h0: Heap, h: Heap, h': Heap, copy: Loc, inPlace: bool, t: Trie, t2: Trie, k: Key, d: nat, s: Trie)
    requires Copied(h0, h, copy, inPlace, t, t2) && WellFormed(hf, t2, d) && CompactAtDepth(t2, d)
    requires Has(t2.bitmap, ChunkOf(hf, k, d)) && RowFor(hf, t2, k, d) < |t2.rows|
    requires var r := RowFor(hf, t2, k, d);
      Removed(hf, h, h', Loc(t2.ptr, r), Owned(t2.rows[r], inPlace), t2.rows[r], s, k, d + 1)
    requires d == 0 || |t2.rows| > 1 || s.Node?
    ensures Removed(hf, h0, h', copy, Owned(t, inPlace), t, t2.(rows := t2.rows[RowFor(hf, t2, k, d) := s]), k, d)
  {
    hide Unbound, CompactAtDepth, Shape, Anchored, OnlyChanges, OwnOrNew, Removed, WellFormed, Tables, Compact, Has, Popcount;
    BelowOneRow(hf, h0, h, h', copy, inPlace, t, t2, k, d, s);
    ChildGone(hf, t2, k, d, s);
    MayChangeAbove(h0, h, copy, inPlace, t, t2);
    CopyThenRemove(hf, h0, h, h', copy, Owned(t, inPlace), OwnedAbove(t2, inPlace), t, t2,
                   t2.(rows := t2.rows[RowFor(hf, t2, k, d) := s]), k, d);
  }

  /** The single value left below is gathered once more. */
  lemma ChildGathered(hf: LibHash, h0: Heap, h: Heap, h': Heap, h'': Heap, copy: Loc, inPlace: bool, t: Trie, t2: Trie, k: Key, d: nat, s: Trie)
    requires Copied(h0, h, copy, inPlace, t, t2) && WellFormed(hf, t2, d) && CompactAtDepth(t2, d) && d > 0
    requires Has(t2.bitmap, ChunkOf(hf, k, d)) && RowFor(hf, t2, k, d) < |t2.rows| == 1 && s.Leaf?
    requires Removed(hf, h, h', Loc(t2.ptr, 0), Owned(t2.rows[0], inPlace), t2.rows[0], s, k, d + 1)
    requires OnlyChanges(h', h'', copy, {t2.ptr}, RowOf(s))
    ensures Removed(hf, h0, h'', copy, Owned(t, inPlace), t, s, k, d)
  {
    hide Unbound, Shape, Anchored, OnlyChanges, OwnOrNew, Removed, WellFormed, Tables, Has, Popcount;
    var u := t2.(rows := [s]);
    assert t2.rows[0 := s] == [s];
    BelowOneRow(hf, h0, h, h', copy, inPlace, t, t2, k, d, s);
    ChildGone(hf, t2, k, d, s);
    MayChangeAbove(h0, h, copy, inPlace, t, t2);
    ValuePulledUp(h', h'', copy, u, s);
    TwoChanges(h, h', h'', copy, OwnedAbove(t2, inPlace), t2.ptr, RowOf(u), RowOf(s));
    LeafOwnsNothing(h, Tables(t2), s);
    CopyThenRemove(hf, h0, h, h'', copy, Owned(t, inPlace), OwnedAbove(t2, inPlace), t, t2, s, k, d);
  }

  lemma LeafOwnsNothing(h: Heap, own: set<Ptr>, s: Trie)
    requires s.Leaf?
    ensures OwnOrNew(h, own, s)
  {
  }

  lemma TwoChanges(h: Heap, h': Heap, h'': Heap, loc: Loc, own: set<Ptr>, p: Ptr, row: Row, row': Row)
    requires OnlyChanges(h, h', loc, own, row) && OnlyChanges(h', h'', loc, {p}, row') && p in own
    ensures OnlyChanges(h, h'', loc, own, row')
  {
    assert h[loc.table][loc.index := row][loc.index := row'] == h[loc.table][loc.index := row'];
  }

  lemma RootFromTop(h0: Heap, h: Heap, root: Loc, copy: Loc, inPlace: bool, t: Trie, t2: Trie, r: nat, d: nat)
    requires Copied(h0, h, copy, inPlace, t, t2) && r < |t2.rows|
    requires if d == 0 then root == copy else RootAbove(h0, root, copy, t)
    ensures RootAbove(h, root, Loc(t2.ptr, r), t2.rows[r])
    ensures d > 0 ==> h[root.table][root.index].word != t2.ptr
  {
    if d == 0 {
      RootBelowTop(h, copy, t2, r);
    } else {
      hide Holds, Separate, Anchored;
      if inPlace {
        assert t2.ptr in Tables(t);
      } else {
        RootBelow(h0, h, root, copy, t, t2, r);
      }
    }
  }

  lemma CopyFacts(hf: LibHash, h0: Heap, h: Heap, copy: Loc, inPlace: bool, t: Trie, t2: Trie, k: Key, d: nat)
    requires t.Node? && t2.Node? && WellFormed(hf, t, d) && CompactAtDepth(t, d) && t2 == t.(ptr := t2.ptr)
    requires if inPlace then h0 == h && t2 == t && Anchored(h, copy, t) else
      && Anchored(h, copy, t2) && OwnOrNew(h0, Tables(t), t2) && OnlyChanges(h0, h, copy, {}, RowOf(t2))
      && (t2.rows != [] ==> t2.ptr !in h0)
    ensures Copied(h0, h, copy, inPlace, t, t2) && WellFormed(hf, t2, d) && CompactAtDepth(t2, d)
    ensures Find(hf, t2, k, d) == Find(hf, t, k, d)
  {
    hide Holds, Separate, WellFormed, Tables;
    ShapeIgnoresPtr(hf, t, t2, d);
    if inPlace {
      assert h[copy.table][copy.index := RowOf(t)] == h[copy.table];
    }
  }

  lemma BelowFacts(hf: LibHash, h0: Heap, h: Heap, copy: Loc, inPlace: bool, t: Trie, t2: Trie, r: nat, d: nat)
    requires Copied(h0, h, copy, inPlace, t, t2) && WellFormed(hf, t2, d) && CompactAtDepth(t2, d)
    requires r < |t2.rows| && t2.rows[r].Node?
    ensures var node := t2.rows[r];
      && WellFormed(hf, node, d + 1) && CompactAtDepth(node, d + 1) && d + 1 < DEPTHS
      && Anchored(h, Loc(t2.ptr, r), node) && CanCopyTo(h, Loc(t2.ptr, r), node) && node < t
  {
    ChildAnchored(h, t2, copy, r);
    assert WellFormed(hf, t2.rows[r], d + 1);
    assert t2.rows[r] == t.rows[r];
  }

  lemma AfterBelow(hf: LibHash, h0: Heap, h: Heap, h': Heap, copy: Loc, root: Loc, inPlace: bool, t: Trie, t2: Trie, k: Key, d: nat, s: Trie)
    requires Copied(h0, h, copy, inPlace, t, t2) && WellFormed(hf, t2, d)
    requires Has(t2.bitmap, ChunkOf(hf, k, d)) && RowFor(hf, t2, k, d) < |t2.rows|
    requires var r := RowFor(hf, t2, k, d);
      && RootAbove(h, root, Loc(t2.ptr, r), t2.rows[r])
      && Removed(hf, h, h', Loc(t2.ptr, r), Owned(t2.rows[r], inPlace), t2.rows[r], s, k, d + 1)
    ensures root.table in h' && root.index < |h'[root.table]| && h'[root.table][root.index] == h[root.table][root.index]
    ensures HoldsRow(h, copy, RowOf(t2)) && HoldsRow(h', copy, RowOf(t2)) && |t2.rows| == Popcount(t2.bitmap)
    ensures t2.ptr != copy.table && t2.ptr != 0 && HoldsRow(h', Loc(t2.ptr, RowFor(hf, t2, k, d)), RowOf(s))
    ensures |h'[t2.ptr]| == |t2.rows|
    ensures Find(hf, t2, k, d) == Find(hf, t2.rows[RowFor(hf, t2, k, d)], k, d + 1)
    ensures Shape(s) == Shape(t2.rows[RowFor(hf, t2, k, d)]) ==> Shape(t2.(rows := t2.rows[RowFor(hf, t2, k, d) := s])) == Shape(t)
  {
    hide Holds, Separate, WellFormed, Unbound, Compact, Shape, Has, Popcount, Find;
    var r := RowFor(hf, t2, k, d);
    NodeTable(hf, h, copy, t2, d);
    BelowOneRow(hf, h0, h, h', copy, inPlace, t, t2, k, d, s);
    FindNext(hf, t2, k, d);
    if Shape(s) == Shape(t2.rows[r]) {
      ShapeOfRow(t2, r, s);
    }
  }

  lemma FindNext(hf: LibHash, t: Trie, k: Key, d: nat)
    requires t.Node? && Has(t.bitmap, ChunkOf(hf, k, d)) && RowFor(hf, t, k, d) < |t.rows|
    ensures Find(hf, t, k, d) == Find(hf, t.rows[RowFor(hf, t, k, d)], k, d + 1)
  {
  }

  /** rem_recursive. With a path, the tables on the way are copied first. */
  method RemRecursive(mem: Memory, hf: LibHash, root: Loc, anchor: Loc, hash: HashState, key: Key, path: Option<Loc>,
                      ghost t: Trie, ghost d: nat)
    returns (status: RemoveStatus, value: nat, ghost u: Trie)
    requires t.Node? && WellFormed(hf, t, d) && CompactAtDepth(t, d) && Anchored(mem.tables, anchor, t)
    requires InSync(hf, hash, key, d)
    requires path.Some? ==> CanCopyTo(mem.tables, path.value, t)
    requires var copy := if path.Some? then path.value else anchor;
      if d == 0 then root == copy else RootAbove(mem.tables, root, copy, t)
    modifies mem
    ensures var copy := if path.Some? then path.value else anchor;
      Removed(hf, old(mem.tables), mem.tables, copy, if path.Some? then {} else Tables(t), t, u, key, d)
    ensures status == Gathered ==> u.Leaf?
    ensures u.Leaf? ==> status == Gathered && d > 0
    ensures Find(hf, t, key, d).Some? ==> status != RemoveNotFound && value == Tagged(Find(hf, t, key, d).value)
    ensures Find(hf, t, key, d).None? ==> value == 0 && Shape(u) == Shape(t)
    ensures Find(hf, t, key, d).None? && path.None? ==> mem.tables == old(mem.tables)
    ensures status == RemoveNotFound <==> EndsHere(hf, t, key, d)
    decreases t, 1
  {
    hide WellFormed, Holds, Separate, Tables, Compact, CompactAtDepth, Shape, Has, Popcount, Unbound, OwnOrNew, Removed, Anchored, OnlyChanges;
    ghost var h0 := mem.tables;
    var inPlace := path.None?;
    var copy := anchor;
    ghost var t2 := t;
    if path.Some? {
      copy := path.value;
      t2 := CopyNode(mem, hf, anchor, copy, t, d);
    }
    ghost var h := mem.tables;
    CopyFacts(hf, h0, h, copy, inPlace, t, t2, key, d);
    AnchoredRow(h, copy, t2);
    var row := mem.RowAt(copy);
    var index := HashIndex(hash);
    assert index == ChunkOf(hf, key, d);
    u, value := t2, 0;
    if Has(row.other, index) {
      var pos := Rank(row.other, index);
      RowFacts(hf, h, copy, t2, key, d);
      var next := Loc(row.word, pos);
      var nextRow := mem.RowAt(next);
      RowFits(hf, h, copy, t2, pos, d);
      FindNext(hf, t2, key, d);
      if IsValue(nextRow) {
        if nextRow.other == key {
          RootIsNotCopy(h0, h, root, copy, inPlace, t, t2, d);
          status, u := RemoveValue(mem, hf, root, copy, index, pos, key, t2, d);
          NodeAtRoot(u, d);
          InOneTable(hf, h0, h, mem.tables, copy, inPlace, t, t2, u, key, d);
          value := nextRow.word;
        } else {
          NothingRemoved(hf, h0, h, copy, inPlace, t, t2, key, d);
          status := RemoveNotFound;
        }
      } else {
        RootFromTop(h0, h, root, copy, inPlace, t, t2, pos, d);
        status, value, u := RemoveBelow(mem, hf, root, copy, next, hash, key, inPlace, t, t2, d, h0);
      }
    } else {
      NothingRemoved(hf, h0, h, copy, inPlace, t, t2, key, d);
      status := RemoveNotFound;
    }
  }

  /** The second half of rem_recursive: on to the next table, and gathering on the way back. */
  method RemoveBelow(mem: Memory, hf: LibHash, root: Loc, copy: Loc, next: Loc, hash: HashState, key: Key,
                     inPlace: bool, ghost t: Trie, ghost t2: Trie, ghost d: nat, ghost h0: Heap)
    returns (status: RemoveStatus, value: nat, ghost u: Trie)
    requires t.Node? && t2.Node? && InSync(hf, hash, key, d) && Copied(h0, mem.tables, copy, inPlace, t, t2)
    requires WellFormed(hf, t2, d) && CompactAtDepth(t2, d)
    requires Has(t2.bitmap, ChunkOf(hf, key, d)) && next == Loc(t2.ptr, RowFor(hf, t2, key, d))
    requires next.index < |t2.rows| && t2.rows[next.index].Node?
    requires RootAbove(mem.tables, root, next, t2.rows[next.index])
    requires if d == 0 then root == copy else mem.RowAt(root).word != t2.ptr
    modifies mem
    ensures Removed(hf, h0, mem.tables, copy, Owned(t, inPlace), t, u, key, d)
    ensures status == Gathered ==> u.Leaf?
    ensures u.Leaf? ==> status == Gathered && d > 0
    ensures status != RemoveNotFound
    ensures Find(hf, t2, key, d).Some? ==> value == Tagged(Find(hf, t2, key, d).value)
    ensures Find(hf, t2, key, d).None? ==> value == 0 && Shape(u) == Shape(t)
    ensures Find(hf, t2, key, d).None? && inPlace ==> mem.tables == old(mem.tables)
    decreases t, 0
  {
    hide WellFormed, Holds, Separate, Tables, Compact, CompactAtDepth, Shape, Has, Popcount, Unbound, OwnOrNew, Removed, Copied,
      Anchored, OnlyChanges, RootAbove, Find, Tagged, ChunkOf, RowFor, Rank, CanCopyTo, EndsHere, CompactRoot;
    ghost var h, node, r := mem.tables, t2.rows[next.index], next.index;
    BelowFacts(hf, h0, h, copy, inPlace, t, t2, r, d);
    ghost var child: Trie;
    status, value, child := RemRecursive(mem, hf, root, next, HashNext(hf, hash), key, if inPlace then None else Some(next), node, d + 1);
    ghost var h' := mem.tables;
    AfterBelow(hf, h0, h, h', copy, root, inPlace, t, t2, key, d, child);
    ShapeTells(child, node);
    if next != Loc(mem.RowAt(root).word, 0) && status == Gathered {
      var nRows := Popcount(mem.RowAt(copy).other);
      if nRows == 1 {
        mem.TableGather(copy, 0, nRows);
        ChildGathered(hf, h0, h, h', mem.tables, copy, inPlace, t, t2, key, d, child);
        u := child;
        return;
      }
    }
    ChildRemoved(hf, h0, h, h', copy, inPlace, t, t2, key, d, child);
    u := t2.(rows := t2.rows[r := child]);
    status := RemoveSuccess;
  }

  /** No table to go on with, and no value of the key, in this node. */
  predicate EndsHere(hf: LibHash, t: Trie, k: Key, d: nat)
    requires t.Node?
  {
    Has(t.bitmap, ChunkOf(hf, k, d)) && RowFor(hf, t, k, d) < |t.rows| ==>
      t.rows[RowFor(hf, t, k, d)].Leaf? && t.rows[RowFor(hf, t, k, d)].key != k
  }

  lemma NodeAtRoot(u: Trie, d: nat)
    requires CompactAtDepth(u, d)
    ensures u.Leaf? ==> d > 0
  {
  }

  lemma ShapeTells(t: Trie, u: Trie)
    ensures Shape(t) == Shape(u) ==> (t.Node? <==> u.Node?)
  {
  }

  lemma RowCounts(t: Trie, pos: nat, d: nat)
    requires t.Node? && pos < |t.rows| && t.rows[pos].Leaf? && CompactAtDepth(t, d)
    ensures d > 0 ==> |t.rows| >= 2
  {
  }

  lemma RowFits(hf: LibHash, h: Heap, loc: Loc, t: Trie, i: nat, d: nat)
    requires t.Node? && i < |t.rows| && WellFormed(hf, t, d) && Anchored(h, loc, t)
    ensures WellFormed(hf, t.rows[i], d + 1) && Holds(h, t.rows[i])
    ensures t.ptr in h && i < |h[t.ptr]| && h[t.ptr][i] == RowOf(t.rows[i])
    ensures IsValue(h[t.ptr][i]) <==> t.rows[i].Leaf?
  {
    TagTells(hf, h, t.rows[i], d + 1);
  }
}
