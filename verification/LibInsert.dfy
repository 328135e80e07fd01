/** libhamt's insertions (src/hamt/hamt.c:262-332): a new value row, or a chain of tables
    down to where two keys part. */
module LibInsert {
  import opened Bitmap
  import opened HashTrie
  import opened TrieUpdate
  import opened LibHeap
  import opened LibMemory
  import opened LibSearch

  function Own(t: Trie): set<Ptr> {
    if t.Leaf? || t.rows == [] then {} else {t.ptr}
  }

  /** insert_kv: a value row at the chunk's rank. */
  method InsertKv(mem: Memory, hf: LibHash, anchor: Loc, hash: HashState, key: Key, value: nat, ghost t: Trie)
    returns (inserted: Loc, ghost s: Trie)
    requires t.Node? && WellFormed(hf, t, hash.depth) && Anchored(mem.tables, anchor, t)
    requires InSync(hf, hash, key, hash.depth) && !Has(t.bitmap, ChunkOf(hf, key, hash.depth))
    requires Rank(t.bitmap, ChunkOf(hf, key, hash.depth)) <= |t.rows|
    modifies mem
    ensures s.Node? && s == InsertRow(t, ChunkOf(hf, key, hash.depth), Leaf(key, value), s.ptr)
    ensures Rewrites(old(mem.tables), mem.tables, anchor, Own(t), t, s)
    ensures HoldsRow(mem.tables, inserted, Row(Tagged(value), key))
  {
    hide Holds, Separate, WellFormed, Tables, Popcount, Has, Set;
    var ix := HashIndex(hash);
    assert ix == ChunkOf(hf, key, hash.depth);
    var row := mem.RowAt(anchor);
    var pos := Rank(Set(row.other, ix), ix);
    RankSet(t.bitmap, ix, ix);
    NodeTable(hf, mem.tables, anchor, t, hash.depth);
    var nRows := Popcount(row.other);
    ghost var h := mem.tables;
    mem.TableExtend(anchor, nRows, ix, pos, RowsOf(t.rows));
    var table := mem.RowAt(anchor).word;
    ghost var h1 := mem.tables;
    inserted := Loc(table, pos);
    mem.SetRow(inserted, Row(Tagged(value), key));
    s := InsertRow(t, ix, Leaf(key, value), table);
    InsertedRows(t, ix, Leaf(key, value), table, h1[table], mem.tables[table]);
    InsertedParts(h, t, ix, Leaf(key, value), table);
    TableMade(h, mem.tables, anchor, t, s);
  }

  ghost predicate HoldsRow(h: Heap, loc: Loc, row: Row) {
    loc.table in h && loc.index < |h[loc.table]| && h[loc.table][loc.index] == row
  }

  /** The extended table with its gap filled. */
  lemma InsertedRows(t: Trie, c: nat, x: Trie, p: Ptr, table: seq<Row>, filled: seq<Row>)
    requires t.Node? && Rank(t.bitmap, c) <= |t.rows|
    requires var r := Rank(t.bitmap, c);
      && |table| == |t.rows| + 1 && table[..r] == RowsOf(t.rows)[..r] && table[r + 1..] == RowsOf(t.rows)[r..]
      && filled == table[r := RowOf(x)]
    ensures filled == RowsOf(InsertRow(t, c, x, p).rows)
  {
    var r, us := Rank(t.bitmap, c), InsertRow(t, c, x, p).rows;
    forall i | 0 <= i < |us|
      ensures filled[i] == RowOf(us[i])
    {
      if i < r {
        assert filled[i] == table[..r][i];
      } else if i > r {
        assert filled[i] == table[r + 1..][i - r - 1];
      }
    }
  }

  // ----- Two keys that have gone the same way so far -----

  /** Tables with a single row each, from depth d down to the value x at depth n. */
  ghost predicate Chain(hf: LibHash, t: Trie, x: Trie, k: Key, d: nat, n: nat)
    decreases t
  {
    if d == n then t == x
    else
      && t.Node? && d < n && |t.rows| == 1 && t.bitmap == Set(0, ChunkOf(hf, k, d))
      && Chain(hf, t.rows[0], x, k, d + 1, n)
  }

  lemma {:induction false} ChainLeads(hf: LibHash, t: Trie, x: Trie, loc: Loc, k: Key, d: nat, n: nat)
    requires Chain(hf, t, x, k, d, n)
    ensures Leads(hf, t, k, d, n) && At(hf, t, k, d, n) == x
    decreases t
  {
    if d < n {
      SingleBit(ChunkOf(hf, k, d), ChunkOf(hf, k, d));
      ChainLeads(hf, t.rows[0], x, Loc(t.ptr, 0), k, d + 1, n);
    }
  }

  /** One more table at the end of the chain. */
  lemma {:induction false} ChainOn(hf: LibHash, t: Trie, x: Trie, loc: Loc, k: Key, d: nat, n: nat, p: Ptr)
    requires Chain(hf, t, x, k, d, n) && Leads(hf, t, k, d, n)
    ensures var u := Replace(hf, t, k, d, n, Node(p, Set(0, ChunkOf(hf, k, n)), [x]));
      Chain(hf, u, x, k, d, n + 1) && Leads(hf, u, k, d, n + 1) && LocAt(hf, u, loc, k, d, n + 1) == Loc(p, 0)
    decreases t
  {
    var c := ChunkOf(hf, k, d);
    SingleBit(c, c);
    if d < n {
      ChainOn(hf, t.rows[0], x, Loc(t.ptr, 0), k, d + 1, n, p);
    } else {
      assert Chain(hf, x, x, k, n + 1, n + 1) && Leads(hf, x, k, n + 1, n + 1);
      assert LocAt(hf, x, Loc(p, 0), k, n + 1, n + 1) == Loc(p, 0);
    }
  }

  lemma ChainTop(hf: LibHash, t: Trie, x: Trie, k: Key, d: nat, n: nat, s: Trie)
    requires Chain(hf, t, x, k, d, n) && Leads(hf, t, k, d, n)
    ensures d == n ==> Replace(hf, t, k, d, n, s) == s
    ensures d < n ==>
      t.Node? && |t.rows| == 1 && Chain(hf, t.rows[0], x, k, d + 1, n) && Leads(hf, t.rows[0], k, d + 1, n) && t.rows[0] < t &&
      Replace(hf, t, k, d, n, s) == Node(t.ptr, Set(0, ChunkOf(hf, k, d)), [Replace(hf, t.rows[0], k, d + 1, n, s)])
  {
    SingleBit(ChunkOf(hf, k, d), ChunkOf(hf, k, d));
  }

  /** A chain that ends in a table for both keys is such a table. */
  lemma {:induction false} ChainPairs(hf: LibHash, t: Trie, x: Trie, y: Trie, d: nat, n: nat, s: Trie)
    requires x.Leaf? && y.Leaf? && d <= n < DEPTHS && Chain(hf, t, x, y.key, d, n) && Leads(hf, t, y.key, d, n)
    requires SameWay(hf, x.key, y.key, d, n) && Pairs(hf, s, x, y, n)
    ensures Pairs(hf, Replace(hf, t, y.key, d, n, s), x, y, d)
    decreases t
  {
    hide Pairs, Chain, Leads, Replace;
    ChainTop(hf, t, x, y.key, d, n, s);
    if d < n {
      assert ChunkOf(hf, x.key, d) == ChunkOf(hf, y.key, d);
      assert SameWay(hf, x.key, y.key, d + 1, n);
      ChainPairs(hf, t.rows[0], x, y, d + 1, n, s);
      ChainNode(hf, x, y, d, t.ptr, Replace(hf, t.rows[0], y.key, d + 1, n, s));
    }
  }

  /** The heap with one row overwritten. */
  function With(h: Heap, loc: Loc, row: Row): Heap
    requires loc.table in h && loc.index < |h[loc.table]|
  {
    h[loc.table := h[loc.table][loc.index := row]]
  }

  /** How far insert_table has come: if the current row held the old value, the anchor
      would hold a chain of new tables. */
  ghost predicate ChainBuilt(hf: LibHash, h0: Heap, h: Heap, anchor: Loc, cur: Loc, u: Trie, x: Trie, k: Key, d: nat, n: nat) {
    && cur.table in h && cur.index < |h[cur.table]|
    && Anchored(With(h, cur, RowOf(x)), anchor, u)
    && OnlyChanges(h0, With(h, cur, RowOf(x)), anchor, {}, RowOf(u))
    && OwnOrNew(h0, {}, u)
    && Chain(hf, u, x, k, d, n) && Leads(hf, u, k, d, n) && LocAt(hf, u, anchor, k, d, n) == cur
  }

  /** Exchanging the end of the chain. */
  lemma EndReplaced(hf: LibHash, h0: Heap, h: Heap, h': Heap, anchor: Loc, cur: Loc, u: Trie, x: Trie, k: Key, d: nat, n: nat, s: Trie)
    requires x.Leaf? && ChainBuilt(hf, h0, h, anchor, cur, u, x, k, d, n)
    requires OnlyChanges(h, h', cur, {}, RowOf(s))
    requires Holds(h', s) && Separate(s) && OwnOrNew(h, {}, s)
    ensures var u' := Replace(hf, u, k, d, n, s);
      && Anchored(h', anchor, u') && OnlyChanges(h0, h', anchor, {}, RowOf(u')) && OwnOrNew(h0, {}, u')
  {
    hide Holds, Separate;
    var g := With(h, cur, RowOf(x));
    ChainLeads(hf, u, x, anchor, k, d, n);
    assert OnlyChanges(g, h', cur, {}, RowOf(s));
    ReplaceInPlace(hf, g, h', u, anchor, k, d, n, s);
    StillOwnOrNew(h0, g, Tables(u), Replace(hf, u, k, d, n, s));
  }

  lemma StillOwnOrNew(h0: Heap, h: Heap, own: set<Ptr>, t: Trie)
    requires OwnOrNew(h, own, t) && h0.Keys <= h.Keys && own !! h0.Keys
    ensures OwnOrNew(h0, {}, t)
  {
  }

  lemma ValueRows(h: Heap, h': Heap, s: Trie)
    requires s.Node? && s.rows != [] && FreshTable(h, s.ptr) && s.ptr in h' && h'[s.ptr] == RowsOf(s.rows)
    requires forall i | 0 <= i < |s.rows| :: s.rows[i].Leaf?
    ensures Holds(h', s) && Separate(s) && OwnOrNew(h, {}, s)
  {
  }

  /** A table with one row, not filled in yet, at the end of the chain. */
  lemma ChainGrows(hf: LibHash, h0: Heap, h: Heap, h': Heap, anchor: Loc, cur: Loc, u: Trie, x: Trie, k: Key, d: nat, n: nat, p: Ptr)
    requires x.Leaf? && ChainBuilt(hf, h0, h, anchor, cur, u, x, k, d, n)
    requires FreshTable(h, p) && p in h' && |h'[p]| == 1
    requires OnlyChanges(h, h', cur, {}, Row(p, Set(0, ChunkOf(hf, k, n))))
    ensures var u' := Replace(hf, u, k, d, n, Node(p, Set(0, ChunkOf(hf, k, n)), [x]));
      ChainBuilt(hf, h0, h', anchor, Loc(p, 0), u', x, k, d, n + 1)
  {
    hide Chain, Leads, LocAt, Anchored, Set;
    var s := Node(p, Set(0, ChunkOf(hf, k, n)), [x]);
    var g := With(h', Loc(p, 0), RowOf(x));
    assert g[p] == RowsOf([x]);
    ValueRows(h, g, s);
    EndReplaced(hf, h0, h, g, anchor, cur, u, x, k, d, n, s);
    ChainOn(hf, u, x, anchor, k, d, n, p);
  }

  /** The table in which the two keys part, both rows filled in. */
  lemma ChainEnds(hf: LibHash, h0: Heap, h: Heap, h': Heap, anchor: Loc, cur: Loc, u: Trie, x: Trie, y: Trie, d: nat, n: nat, p: Ptr)
    requires x.Leaf? && y.Leaf? && x.value % 4 == 0 && y.value % 4 == 0 && d <= n < DEPTHS
    requires ChainBuilt(hf, h0, h, anchor, cur, u, x, y.key, d, n) && SameWay(hf, x.key, y.key, d, n)
    requires ChunkOf(hf, x.key, n) != ChunkOf(hf, y.key, n)
    requires var cx, cy := ChunkOf(hf, x.key, n), ChunkOf(hf, y.key, n);
      && FreshTable(h, p) && p in h' && h'[p] == RowsOf(PairRows(cx, cy, x, y))
      && OnlyChanges(h, h', cur, {}, Row(p, Set(Set(0, cx), cy)))
    ensures exists s :: Pairs(hf, s, x, y, d) && Rewrites(h0, h', anchor, {}, x, s)
  {
    hide Chain, Leads, LocAt, Set, Pairs, Holds, Separate, Anchored, Replace, WellFormed, ChunkOf, OnlyChanges, OwnOrNew;
    var cx, cy := ChunkOf(hf, x.key, n), ChunkOf(hf, y.key, n);
    var s := Node(p, Set(Set(0, cx), cy), PairRows(cx, cy, x, y));
    ValueRows(h, h', s);
    EndReplaced(hf, h0, h, h', anchor, cur, u, x, y.key, d, n, s);
    PairNode(hf, x, y, n, p);
    ChainPairs(hf, u, x, y, d, n, s);
    assert Rewrites(h0, h', anchor, {}, x, Replace(hf, u, y.key, d, n, s));
  }

  /** The end of insert_table: a table with both values in chunk order. */
  method PairTable(mem: Memory, cur: Loc, ix: nat, xIx: nat, xRow: Row, key: Key, value: nat, ghost x: Trie)
    returns (inserted: Loc, ghost table: Ptr)
    requires cur.table in mem.tables && cur.index < |mem.tables[cur.table]|
    requires ix < 32 && xIx < 32 && ix != xIx && x.Leaf? && xRow == RowOf(x)
    modifies mem
    ensures FreshTable(old(mem.tables), table) && table in mem.tables
    ensures mem.tables[table] == RowsOf(PairRows(xIx, ix, x, Leaf(key, value)))
    ensures OnlyChanges(old(mem.tables), mem.tables, cur, {}, Row(table, Set(Set(0, xIx), ix)))
    ensures HoldsRow(mem.tables, inserted, Row(Tagged(value), key))
  {
    hide Popcount, Has, Set;
    var p := mem.TableAllocate(2);
    table := p;
    var bitmap := Set(Set(0, xIx), ix);
    mem.SetRow(cur, Row(p, bitmap));
    var xPos, pos := Rank(bitmap, xIx), Rank(bitmap, ix);
    PairBits(xIx, ix, ix);
    mem.SetRow(Loc(p, xPos), xRow);
    inserted := Loc(p, pos);
    mem.SetRow(inserted, Row(Tagged(value), key));
  }

  /** insert_table: the value x at the anchor makes room for a new key's value below. */
  method InsertTable(mem: Memory, hf: LibHash, anchor: Loc, hash: HashState, key: Key, value: nat, ghost x: Trie)
    returns (inserted: Loc, ghost s: Trie)
    requires x.Leaf? && x.value % 4 == 0 && value % 4 == 0 && Anchored(mem.tables, anchor, x)
    requires InSync(hf, hash, key, hash.depth)
    requires !SameHash(hf, x.key, key) && SameWay(hf, x.key, key, 0, hash.depth + 1)
    modifies mem
    ensures Pairs(hf, s, x, Leaf(key, value), hash.depth + 1)
    ensures Rewrites(old(mem.tables), mem.tables, anchor, {}, x, s)
    ensures HoldsRow(mem.tables, inserted, Row(Tagged(value), key))
  {
    hide Holds, Separate, WellFormed, Tables, Popcount, Has, Set, Chain, Leads, LocAt, SameWay, SameHash, Anchored;
    ghost var h0, d := mem.tables, hash.depth + 1;
    ghost var n, u := d, x;
    var cur := anchor;
    assert Anchored(h0, cur, x);
    ChainStarts(hf, h0, cur, x, key, d);
    var xRow := mem.RowAt(anchor);
    var xHash := HashState(xRow.other, hf.code(xRow.other, hash.depth / 5), hash.depth, hash.shift);
    PartBefore(hf, x.key, key, d);
    var next, xNext := HashNext(hf, hash), HashNext(hf, xHash);
    while HashIndex(xNext) == HashIndex(next)
      invariant n < DEPTHS && InSync(hf, next, key, n) && InSync(hf, xNext, x.key, n)
      invariant SameWay(hf, x.key, key, 0, n) && d <= n
      invariant ChainBuilt(hf, h0, mem.tables, anchor, cur, u, x, key, d, n)
      decreases DEPTHS - n
    {
      WayOn(hf, x.key, key, 0, n);
      PartBefore(hf, x.key, key, n + 1);
      ghost var h, c := mem.tables, HashIndex(next);
      var p := mem.TableAllocate(1);
      mem.SetRow(cur, Row(p, Set(0, HashIndex(next))));
      ChainGrows(hf, h0, h, mem.tables, anchor, cur, u, x, key, d, n, p);
      u := Replace(hf, u, key, d, n, Node(p, Set(0, c), [x]));
      next, xNext := HashNext(hf, next), HashNext(hf, xNext);
      cur := Loc(p, 0);
      n := n + 1;
    }
    ghost var h := mem.tables;
    var ix, xIx := HashIndex(next), HashIndex(xNext);
    ghost var y := Leaf(key, value);
    ghost var table;
    inserted, table := PairTable(mem, cur, ix, xIx, xRow, key, value, x);
    WayFrom(hf, x.key, key, d, n);
    ChainEnds(hf, h0, h, mem.tables, anchor, cur, u, x, y, d, n, table);
    s :| Pairs(hf, s, x, y, d) && Rewrites(h0, mem.tables, anchor, {}, x, s);
  }

  lemma WayFrom(hf: LibHash, k: Key, k': Key, d: nat, n: nat)
    requires SameWay(hf, k, k', 0, n)
    ensures SameWay(hf, k, k', d, n)
  {
  }

  lemma ChainStarts(hf: LibHash, h: Heap, anchor: Loc, x: Trie, k: Key, d: nat)
    requires x.Leaf? && Anchored(h, anchor, x)
    ensures ChainBuilt(hf, h, h, anchor, anchor, x, x, k, d, d)
    ensures anchor.table in h && anchor.index < |h[anchor.table]| && h[anchor.table][anchor.index] == RowOf(x)
  {
    assert h[anchor.table][anchor.index := RowOf(x)] == h[anchor.table];
  }
}
