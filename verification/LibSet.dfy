/** Binding a key in libhamt (src/hamt/hamt.c:406-443, 455-481): the three ends a search can have. */
module LibSet {
  import opened Wrappers
  import opened Bitmap
  import opened HashTrie
  import opened TrieUpdate
  import opened LibHeap
  import opened LibMemory
  import opened LibSearch
  import opened LibInsert

  /** A trie in memory turned in place into one with a single binding changed. */
  ghost predicate Updated(hf: LibHash, h: Heap, h': Heap, loc: Loc, t: Trie, u: Trie, k: Key, v: Option<nat>) {
    && u.Node? && WellFormed(hf, u, 0) && CompactRoot(u)
    && OnlyAdds(t, u, k) && Updates(hf, t, u, k, v, 0)
    && Anchored(h', loc, u) && OwnOrNew(h, Tables(t), u)
    && OnlyChanges(h, h', loc, Tables(t), RowOf(u))
  }

  /** The part at depth n exchanged for s. */
  ghost predicate EndUpdated(hf: LibHash, h: Heap, h': Heap, loc: Loc, t: Trie, k: Key, v: Option<nat>, n: nat, s: Trie)
    requires Leads(hf, t, k, 0, n)
  {
    var a := At(hf, t, k, 0, n);
    && (a.Node? ==> s.Node?) && WellFormed(hf, s, n) && (if n == 0 then CompactRoot(s) else Compact(s))
    && OnlyAdds(a, s, k) && Updates(hf, a, s, k, v, n)
    && OnlyChanges(h, h', LocAt(hf, t, loc, k, 0, n), Tables(a), RowOf(s))
    && Holds(h', s) && Separate(s) && OwnOrNew(h, Tables(a), s)
  }

  lemma WholeUpdated(hf: LibHash, h: Heap, h': Heap, loc: Loc, t: Trie, k: Key, v: Option<nat>, n: nat, s: Trie)
    requires t.Node? && WellFormed(hf, t, 0) && CompactRoot(t) && Anchored(h, loc, t)
    requires Leads(hf, t, k, 0, n) && EndUpdated(hf, h, h', loc, t, k, v, n, s)
    ensures Updated(hf, h, h', loc, t, Replace(hf, t, k, 0, n, s), k, v)
  {
    hide WellFormed, Holds, Separate, Anchored, OnlyChanges, OwnOrNew, OnlyAdds, Updates, Tables, Compact;
    ReplaceUpdates(hf, t, k, v, 0, n, s);
    ReplaceCompact(hf, t, k, 0, n, s);
    ReplaceInPlace(hf, h, h', t, loc, k, 0, n, s);
  }

  lemma {:induction false} AnchoredAt(hf: LibHash, h: Heap, t: Trie, loc: Loc, k: Key, d: nat, n: nat)
    requires Leads(hf, t, k, d, n) && Anchored(h, loc, t)
    ensures Anchored(h, LocAt(hf, t, loc, k, d, n), At(hf, t, k, d, n))
    decreases t
  {
    if d < n {
      hide Anchored;
      var r := RowFor(hf, t, k, d);
      ChildAnchored(h, t, loc, r);
      AnchoredAt(hf, h, t.rows[r], Loc(t.ptr, r), k, d + 1, n);
    }
  }

  lemma {:induction false} CompactAt(hf: LibHash, t: Trie, k: Key, d: nat, n: nat)
    requires Leads(hf, t, k, d, n) && (Compact(t) || (CompactRoot(t) && d < n))
    ensures Compact(At(hf, t, k, d, n))
    decreases t
  {
    if d < n {
      CompactAt(hf, t.rows[RowFor(hf, t, k, d)], k, d + 1, n);
    }
  }

  lemma {:induction false} FindAlong(hf: LibHash, t: Trie, k: Key, d: nat, n: nat)
    requires Leads(hf, t, k, d, n)
    ensures Find(hf, t, k, d) == Find(hf, At(hf, t, k, d, n), k, n)
    decreases t
  {
    if d < n {
      FindAlong(hf, t.rows[RowFor(hf, t, k, d)], k, d + 1, n);
    }
  }

  /** What a search says is what the trie says. */
  lemma FoundIsFind(hf: LibHash, t: Trie, loc: Loc, k: Key, sr: SearchResult)
    requires Found(hf, t, loc, k, 0, sr)
    ensures Leads(hf, t, k, 0, sr.hash.depth) && At(hf, t, k, 0, sr.hash.depth).Node?
    ensures (sr.status == SearchSuccess <==> Find(hf, t, k, 0).Some?)
    ensures sr.status == SearchSuccess ==>
      var a := At(hf, t, k, 0, sr.hash.depth); Find(hf, t, k, 0) == Some(a.rows[RowFor(hf, a, k, sr.hash.depth)].value)
  {
    FindAlong(hf, t, k, 0, sr.hash.depth);
  }

  // ----- Ends -----

  /** The facts about the node a search stopped in. */
  lemma StoppedIn(hf: LibHash, h: Heap, t: Trie, loc: Loc, k: Key, sr: SearchResult)
    requires t.Node? && WellFormed(hf, t, 0) && CompactRoot(t) && Anchored(h, loc, t) && Found(hf, t, loc, k, 0, sr)
    ensures var n := sr.hash.depth; var a := At(hf, t, k, 0, n);
      && a.Node? && WellFormed(hf, a, n) && Anchored(h, sr.anchor, a) && (if n == 0 then CompactRoot(a) else Compact(a))
      && StopsAt(hf, a, k, n, sr) && InSync(hf, sr.hash, k, n) && sr.anchor == LocAt(hf, t, loc, k, 0, n)
      && Rank(a.bitmap, ChunkOf(hf, k, n)) <= |a.rows|
  {
    var n := sr.hash.depth;
    WellFormedAt(hf, t, k, 0, n);
    AnchoredAt(hf, h, t, loc, k, 0, n);
    if n > 0 {
      CompactAt(hf, t, k, 0, n);
    }
    var a := At(hf, t, k, 0, n);
    RankBounds(a.bitmap, ChunkOf(hf, k, n));
  }

  /** The facts about the value row a search ended at. */
  lemma StoppedAt(hf: LibHash, h: Heap, t: Trie, loc: Loc, k: Key, sr: SearchResult) returns (x: Trie)
    requires t.Node? && WellFormed(hf, t, 0) && CompactRoot(t) && Anchored(h, loc, t) && Found(hf, t, loc, k, 0, sr)
    requires sr.status != NotFound
    ensures var n := sr.hash.depth;
      && Leads(hf, t, k, 0, n + 1) && x == At(hf, t, k, 0, n + 1) && LocAt(hf, t, loc, k, 0, n + 1) == sr.value
    ensures x.Leaf? && x.value % 4 == 0 && Anchored(h, sr.value, x) && (sr.status == SearchSuccess <==> x.key == k)
    ensures x.key in Keys(t) && SameWay(hf, x.key, k, 0, sr.hash.depth + 1)
    ensures var a := At(hf, t, k, 0, sr.hash.depth); a.Node? && sr.value.table in Own(a)
  {
    hide Anchored, WellFormed, SameWay, CompactRoot;
    var n := sr.hash.depth;
    StoppedIn(hf, h, t, loc, k, sr);
    LeadsOn(hf, t, loc, k, 0, n);
    x := At(hf, t, k, 0, n + 1);
    WellFormedAt(hf, t, k, 0, n + 1);
    AnchoredAt(hf, h, t, loc, k, 0, n + 1);
    assert x.key in Keys(x);
    LeafValue(hf, x, n + 1);
  }

  lemma LeafValue(hf: LibHash, x: Trie, d: nat)
    requires x.Leaf? && WellFormed(hf, x, d)
    ensures x.value % 4 == 0
  {
  }

  /** An overwritten value. */
  lemma Overwritten(hf: LibHash, h: Heap, h': Heap, loc: Loc, t: Trie, k: Key, value: nat, n: nat)
    requires n > 0 && Leads(hf, t, k, 0, n) && value % 4 == 0
    requires var x := At(hf, t, k, 0, n);
      x.Leaf? && x.key == k && OnlyChanges(h, h', LocAt(hf, t, loc, k, 0, n), {}, RowOf(Leaf(k, value)))
    ensures EndUpdated(hf, h, h', loc, t, k, Some(value), n, Leaf(k, value))
  {
    var x := At(hf, t, k, 0, n);
    assert Tables(x) == {};
    forall k'
      ensures UpdatesAt(hf, x, Leaf(k, value), k, Some(value), k', n)
    {
    }
  }

  /** A new row in the node where the search stopped. */
  lemma RowAdded(hf: LibHash, h: Heap, h': Heap, loc: Loc, t: Trie, k: Key, value: nat, n: nat, s: Trie)
    requires Leads(hf, t, k, 0, n) && value % 4 == 0
    requires var a := At(hf, t, k, 0, n);
      && a.Node? && WellFormed(hf, a, n) && (if n == 0 then CompactRoot(a) else Compact(a))
      && !Has(a.bitmap, ChunkOf(hf, k, n)) && Rank(a.bitmap, ChunkOf(hf, k, n)) <= |a.rows|
      && s.Node? && s == InsertRow(a, ChunkOf(hf, k, n), Leaf(k, value), s.ptr)
      && Rewrites(h, h', LocAt(hf, t, loc, k, 0, n), Own(a), a, s)
    ensures EndUpdated(hf, h, h', loc, t, k, Some(value), n, s)
  {
    hide WellFormed, Updates, OnlyAdds, Has, Popcount, Holds, Separate, OwnOrNew;
    var a := At(hf, t, k, 0, n);
    RowInserted(hf, a, k, value, n, s.ptr);
    InsertedCompact(a, ChunkOf(hf, k, n), Leaf(k, value), s.ptr);
  }

  lemma InsertedCompact(t: Trie, c: nat, x: Trie, p: Ptr)
    requires t.Node? && Rank(t.bitmap, c) <= |t.rows| && x.Leaf?
    ensures CompactRoot(t) ==> CompactRoot(InsertRow(t, c, x, p))
    ensures Compact(t) ==> Compact(InsertRow(t, c, x, p))
  {
    var u, r := InsertRow(t, c, x, p), Rank(t.bitmap, c);
    forall i | 0 <= i < |u.rows|
      ensures CompactRoot(t) || Compact(t) ==> Compact(u.rows[i])
    {
      if i < r {
        assert u.rows[i] == t.rows[i];
      } else if i > r {
        assert u.rows[i] == t.rows[i - 1];
      }
    }
  }

  /** Tables where the old value was. */
  lemma ValueSplit(hf: LibHash, h: Heap, h': Heap, loc: Loc, t: Trie, k: Key, value: nat, n: nat, s: Trie)
    requires n > 0 && Leads(hf, t, k, 0, n)
    requires var x := At(hf, t, k, 0, n);
      && x.Leaf? && Pairs(hf, s, x, Leaf(k, value), n)
      && Rewrites(h, h', LocAt(hf, t, loc, k, 0, n), {}, x, s)
    ensures EndUpdated(hf, h, h', loc, t, k, Some(value), n, s)
  {
    assert Tables(At(hf, t, k, 0, n)) == {};
  }

  /** All tables but some are as they were. */
  ghost predicate Spares(h: Heap, h': Heap, touched: set<Ptr>) {
    forall q | q in h && q !in touched :: q in h' && h'[q] == h[q]
  }

  lemma RowSet(h: Heap, loc: Loc, x: Trie, row: Row, touched: set<Ptr>)
    requires Anchored(h, loc, x) && loc.table in touched
    ensures OnlyChanges(h, With(h, loc, row), loc, {}, row) && Spares(h, With(h, loc, row), touched)
  {
  }

  lemma RewritesSpares(h: Heap, h': Heap, loc: Loc, own: set<Ptr>, t: Trie, s: Trie, touched: set<Ptr>)
    requires Rewrites(h, h', loc, own, t, s) && loc.table in touched && own <= touched
    ensures Spares(h, h', touched)
  {
  }

  lemma AnchoredRow(h: Heap, loc: Loc, x: Trie)
    requires Anchored(h, loc, x)
    ensures loc.table in h && loc.index < |h[loc.table]| && h[loc.table][loc.index] == RowOf(x)
  {
  }

  lemma KeysDiffer(hf: LibHash, keys: set<Key>, k: Key, k': Key)
    requires Distinct(hf, keys + {k'}) && k in keys && k != k'
    ensures !SameHash(hf, k, k')
  {
  }

  /** The switch shared by set and hamt_pset, after the search. */
  method SetFound(mem: Memory, hf: LibHash, anchor: Loc, sr: SearchResult, key: Key, value: nat, ghost t: Trie)
    returns (inserted: Loc, added: bool, ghost u: Trie)
    requires t.Node? && WellFormed(hf, t, 0) && CompactRoot(t) && Anchored(mem.tables, anchor, t)
    requires Found(hf, t, anchor, key, 0, sr)
    requires value % 4 == 0 && Distinct(hf, Keys(t) + {key})
    modifies mem
    ensures Updated(hf, old(mem.tables), mem.tables, anchor, t, u, key, Some(value))
    ensures added <==> Find(hf, t, key, 0).None?
    ensures HoldsRow(mem.tables, inserted, Row(Tagged(value), key))
    ensures Spares(old(mem.tables), mem.tables, {sr.anchor.table} + Own(At(hf, t, key, 0, sr.hash.depth)))
  {
    hide WellFormed, Holds, Separate, Anchored, OwnOrNew, OnlyAdds, Updates, Tables, Compact, CompactRoot,
      Has, Popcount, Set, Leads, At, LocAt, SameWay, Pairs, Updated, EndUpdated, Replace, Spares, OnlyChanges,
      Rewrites, InSync, Found, Distinct, SameHash, Own, ChunkOf;
    ghost var n, h := sr.hash.depth, mem.tables;
    FoundIsFind(hf, t, anchor, key, sr);
    ghost var touched := {sr.anchor.table} + Own(At(hf, t, key, 0, n));
    StoppedIn(hf, h, t, anchor, key, sr);
    match sr.status
    case SearchSuccess =>
      ghost var x := StoppedAt(hf, h, t, anchor, key, sr);
      AnchoredRow(h, sr.value, x);
      var row := mem.RowAt(sr.value);
      RowSet(h, sr.value, x, Row(Tagged(value), row.other), touched);
      mem.SetRow(sr.value, Row(Tagged(value), row.other));
      inserted, added := sr.value, false;
      Overwritten(hf, h, mem.tables, anchor, t, key, value, n + 1);
      WholeUpdated(hf, h, mem.tables, anchor, t, key, Some(value), n + 1, Leaf(key, value));
      u := Replace(hf, t, key, 0, n + 1, Leaf(key, value));
    case NotFound =>
      ghost var s;
      inserted, s := InsertKv(mem, hf, sr.anchor, sr.hash, key, value, At(hf, t, key, 0, n));
      added := true;
      RewritesSpares(h, mem.tables, sr.anchor, Own(At(hf, t, key, 0, n)), At(hf, t, key, 0, n), s, touched);
      RowAdded(hf, h, mem.tables, anchor, t, key, value, n, s);
      WholeUpdated(hf, h, mem.tables, anchor, t, key, Some(value), n, s);
      u := Replace(hf, t, key, 0, n, s);
    case KeyMismatch =>
      ghost var x := StoppedAt(hf, h, t, anchor, key, sr);
      ghost var s;
      KeysDiffer(hf, Keys(t), x.key, key);
      inserted, s := InsertTable(mem, hf, sr.value, sr.hash, key, value, x);
      added := true;
      RewritesSpares(h, mem.tables, sr.value, {}, x, s, touched);
      ValueSplit(hf, h, mem.tables, anchor, t, key, value, n + 1, s);
      WholeUpdated(hf, h, mem.tables, anchor, t, key, Some(value), n + 1, s);
      u := Replace(hf, t, key, 0, n + 1, s);
  }
}
