/** libhamt (src/hamt/hamt.c): searching, in place or with the tables on the key's way
    copied. */
module LibSearch {
  import opened Wrappers
  import opened Words
  import opened Bitmap
  import opened HashTrie
  import opened TrieUpdate
  import opened LibHeap
  import opened LibMemory

  /** struct hash_state. */
  datatype HashState = HashState(key: Key, hash: nat, depth: nat, shift: nat)

  function HashStart(hf: LibHash, key: Key): HashState {
    HashState(key, hf.code(key, 0), 0, 0)
  }

  /** hash_next: five bits on, and a new hash when they run out. */
  function HashNext(hf: LibHash, h: HashState): HashState {
    if h.shift + 5 > 25 then HashState(h.key, hf.code(h.key, h.depth + 1), h.depth + 1, 0)
    else HashState(h.key, h.hash, h.depth + 1, h.shift + 5)
  }

  function HashIndex(h: HashState): nat {
    h.hash / Pow2(h.shift) % 32
  }

  /** At depth d the state holds generation 0, shifted by five bits a depth. */
  predicate InSync(hf: LibHash, h: HashState, key: Key, d: nat) {
    d < DEPTHS && h == HashState(key, hf.code(key, 0), d, 5 * d)
  }

  datatype Status = SearchSuccess | NotFound | KeyMismatch

  datatype SearchResult = SearchResult(status: Status, anchor: Loc, value: Loc, hash: HashState)

  /** Where a search of a trie anchored at loc has stopped, and why. */
  ghost predicate Found(hf: LibHash, t: Trie, loc: Loc, k: Key, d: nat, sr: SearchResult) {
    var n := sr.hash.depth;
    && InSync(hf, sr.hash, k, n) && Leads(hf, t, k, d, n)
    && sr.anchor == LocAt(hf, t, loc, k, d, n)
    && At(hf, t, k, d, n).Node?
    && StopsAt(hf, At(hf, t, k, d, n), k, n, sr)
  }

  ghost predicate StopsAt(hf: LibHash, a: Trie, k: Key, n: nat, sr: SearchResult)
    requires a.Node?
  {
    var r := RowFor(hf, a, k, n);
    if sr.status == NotFound then !Has(a.bitmap, ChunkOf(hf, k, n))
    else
      && Has(a.bitmap, ChunkOf(hf, k, n)) && r < |a.rows| && a.rows[r].Leaf?
      && sr.value == Loc(a.ptr, r)
      && (sr.status == SearchSuccess <==> a.rows[r].key == k)
  }

  /** All tables on the key's way down to depth n are new to the heap. */
  ghost predicate NewWay(hf: LibHash, h: Heap, t: Trie, k: Key, d: nat, n: nat)
    requires Leads(hf, t, k, d, n)
    decreases t
  {
    t.Node? && (t.rows != [] ==> t.ptr !in h) && (d < n ==> NewWay(hf, h, t.rows[RowFor(hf, t, k, d)], k, d + 1, n))
  }

  /** Reading the row of a chunk. */
  lemma RowFacts(hf: LibHash, h: Heap, loc: Loc, t: Trie, k: Key, d: nat)
    requires t.Node? && WellFormed(hf, t, d) && Anchored(h, loc, t) && Has(t.bitmap, ChunkOf(hf, k, d))
    ensures var r := RowFor(hf, t, k, d);
      && r < |t.rows| && t.ptr in h && r < |h[t.ptr]| && h[t.ptr][r] == RowOf(t.rows[r])
      && WellFormed(hf, t.rows[r], d + 1)
      && Anchored(h, Loc(t.ptr, r), t.rows[r])
      && loc.table != t.ptr && loc.table !in Tables(t.rows[r])
  {
    hide Holds, Separate, Tables, WellFormed;
    var r := RowFor(hf, t, k, d);
    RowWellFormed(hf, t, k, d);
    ChildAnchored(h, t, loc, r);
  }

  lemma RowWellFormed(hf: LibHash, t: Trie, k: Key, d: nat)
    requires t.Node? && WellFormed(hf, t, d) && Has(t.bitmap, ChunkOf(hf, k, d))
    ensures RowFor(hf, t, k, d) < |t.rows| && WellFormed(hf, t.rows[RowFor(hf, t, k, d)], d + 1)
  {
    BitAtRank(t.bitmap, ChunkOf(hf, k, d));
  }

  /** The tag tells a value from a table. */
  lemma TagTells(hf: LibHash, h: Heap, t: Trie, d: nat)
    requires WellFormed(hf, t, d) && Holds(h, t)
    ensures IsValue(RowOf(t)) <==> t.Leaf?
  {
  }

  /** Exchanging a node's table for one with other rows of the same trie, or new values. */
  lemma TableMade(h: Heap, h': Heap, loc: Loc, t: Trie, s: Trie)
    requires t.Node? && s.Node? && s.rows != [] && Anchored(h, loc, t)
    requires OnlyChanges(h, h', loc, if t.rows == [] then {} else {t.ptr}, RowOf(s))
    requires FreshTable(h, s.ptr) && s.ptr in h' && h'[s.ptr] == RowsOf(s.rows)
    requires forall i | 0 <= i < |s.rows| :: PartOf(h, t, s.rows[i])
    requires forall i, j | 0 <= i < j < |s.rows| :: Tables(s.rows[i]) !! Tables(s.rows[j])
    ensures Rewrites(h, h', loc, if t.rows == [] then {} else {t.ptr}, t, s)
  {
    TablesInHeap(h, t);
    forall i | 0 <= i < |s.rows|
      ensures Holds(h', s.rows[i]) && Separate(s.rows[i]) && s.ptr !in Tables(s.rows[i])
    {
      assert PartOf(h, t, s.rows[i]);
      TablesInHeap(h, s.rows[i]);
      HoldsFrame(h, h', s.rows[i]);
    }
    forall q | q in Tables(s)
      ensures q in Tables(t) || q !in h
    {
      if q != s.ptr {
        var i :| 0 <= i < |s.rows| && q in Tables(s.rows[i]);
        assert PartOf(h, t, s.rows[i]);
      }
    }
  }

  /** A row that can be moved to another table of the same node. */
  ghost predicate PartOf(h: Heap, t: Trie, x: Trie)
    requires t.Node?
  {
    Holds(h, x) && Separate(x) && Tables(x) <= Tables(t) && t.ptr !in Tables(x)
  }

  lemma RowIsPart(h: Heap, t: Trie, i: nat)
    requires t.Node? && i < |t.rows| && Holds(h, t) && Separate(t)
    ensures PartOf(h, t, t.rows[i])
  {
    TablesOfRow(t, i);
  }

  lemma ValueIsPart(h: Heap, t: Trie, x: Trie)
    requires t.Node? && x.Leaf?
    ensures PartOf(h, t, x)
  {
  }

  lemma InsertedParts(h: Heap, t: Trie, c: nat, x: Trie, p: Ptr)
    requires t.Node? && Holds(h, t) && Separate(t) && x.Leaf? && Rank(t.bitmap, c) <= |t.rows|
    ensures var us := InsertRow(t, c, x, p).rows;
      && (forall i | 0 <= i < |us| :: PartOf(h, t, us[i]))
      && (forall i, j | 0 <= i < j < |us| :: Tables(us[i]) !! Tables(us[j]))
  {
    hide Holds;
    var r, us := Rank(t.bitmap, c), InsertRow(t, c, x, p).rows;
    forall i | 0 <= i < |us|
      ensures PartOf(h, t, us[i])
    {
      if i == r {
        ValueIsPart(h, t, x);
      } else {
        RowIsPart(h, t, if i < r then i else i - 1);
      }
    }
    forall i, j | 0 <= i < j < |us|
      ensures Tables(us[i]) !! Tables(us[j])
    {
      var i', j' := if i < r then i else i - 1, if j < r then j else j - 1;
      if i != r && j != r {
        assert us[i] == t.rows[i'] && us[j] == t.rows[j'];
      }
    }
  }

  /** search_recursive. With a path, each table on the way is copied and the copy searched. */
  method SearchRecursive(mem: Memory, hf: LibHash, anchor: Loc, hash: HashState, key: Key, path: Option<Loc>, ghost t: Trie, ghost d: nat)
    returns (sr: SearchResult, ghost t2: Trie)
    requires t.Node? && WellFormed(hf, t, d) && Anchored(mem.tables, anchor, t) && InSync(hf, hash, key, d)
    requires path.Some? ==> CanCopyTo(mem.tables, path.value, t)
    modifies mem
    ensures path.None? ==> mem.tables == old(mem.tables) && t2 == t && Found(hf, t, anchor, key, d, sr)
    ensures path.Some? ==> Found(hf, t2, path.value, key, d, sr)
    ensures path.Some? ==> WayCopied(hf, old(mem.tables), mem.tables, path.value, t, t2, key, d, sr.hash.depth)
    decreases t
  {
    hide Holds, Separate, WellFormed, Tables, Shape, Found, WayCopied, OwnOrNew, Popcount;
    var copy := anchor;
    t2 := t;
    if path.Some? {
      copy := path.value;
      t2 := CopyNode(mem, hf, anchor, copy, t, d);
      ShapeIgnoresPtr(hf, t, t2, d);
      WayCopiedHere(hf, old(mem.tables), mem.tables, copy, t, t2, key, d);
    }
    var row := mem.RowAt(copy);
    var index := HashIndex(hash);
    assert index == ChunkOf(hf, key, d);
    if Has(row.other, index) {
      var pos := Rank(row.other, index);
      RowFacts(hf, mem.tables, copy, t2, key, d);
      var next := Loc(row.word, pos);
      var nextRow := mem.RowAt(next);
      TagTells(hf, mem.tables, t2.rows[pos], d + 1);
      if IsValue(nextRow) {
        sr := SearchResult(if nextRow.other == key then SearchSuccess else KeyMismatch, copy, next, hash);
        FoundHere(hf, t2, copy, key, d, sr);
      } else {
        NodeDepth(hf, t2.rows[pos], d + 1);
        ghost var h, node := mem.tables, t2;
        ghost var child: Trie;
        sr, child := SearchRecursive(mem, hf, next, HashNext(hf, hash), key, if path.Some? then Some(next) else None,
                                     node.rows[pos], d + 1);
        if path.Some? {
          t2 := node.(rows := node.rows[pos := child]);
          FoundOn(hf, t2, copy, key, d, sr);
          WayCopiedOn(hf, old(mem.tables), h, mem.tables, copy, t, node, key, d, sr.hash.depth, child);
        } else {
          FoundOn(hf, t, copy, key, d, sr);
        }
      }
    } else {
      sr := SearchResult(NotFound, copy, copy, hash);
      FoundHere(hf, t2, copy, key, d, sr);
    }
  }

  /** The first lines of both recursions: the anchor's table is copied to the path row. */
  method CopyNode(mem: Memory, hf: LibHash, anchor: Loc, copy: Loc, ghost t: Trie, ghost d: nat) returns (ghost u: Trie)
    requires t.Node? && WellFormed(hf, t, d) && Anchored(mem.tables, anchor, t) && CanCopyTo(mem.tables, copy, t)
    modifies mem
    ensures u.Node? && u == t.(ptr := u.ptr)
    ensures Anchored(mem.tables, copy, u) && OwnOrNew(old(mem.tables), Tables(t), u)
    ensures OnlyChanges(old(mem.tables), mem.tables, copy, {}, RowOf(u))
    ensures u.rows != [] ==> u.ptr !in old(mem.tables)
  {
    hide Holds, Separate, WellFormed, Tables, Popcount;
    var row := mem.RowAt(anchor);
    NodeTable(hf, mem.tables, anchor, t, d);
    var table := mem.TableDup(anchor, Popcount(row.other));
    mem.SetRow(copy, Row(table, row.other));
    u := t.(ptr := table);
    TableCopied(old(mem.tables), mem.tables, copy, t, u);
  }

  lemma NodeDepth(hf: LibHash, t: Trie, d: nat)
    requires WellFormed(hf, t, d) && t.Node?
    ensures d < DEPTHS
  {
  }

  lemma NodeTable(hf: LibHash, h: Heap, loc: Loc, t: Trie, d: nat)
    requires t.Node? && WellFormed(hf, t, d) && Anchored(h, loc, t)
    ensures |t.rows| == Popcount(t.bitmap)
    ensures t.rows != [] ==> t.ptr in h && h[t.ptr] == RowsOf(t.rows) && t.ptr != loc.table && t.ptr != 0
  {
  }

  lemma ShapeIgnoresPtr(hf: LibHash, t: Trie, u: Trie, d: nat)
    requires t.Node? && u.Node? && u == t.(ptr := u.ptr)
    ensures Shape(u) == Shape(t) && (WellFormed(hf, t, d) ==> WellFormed(hf, u, d))
  {
    assert Shape(u).rows == Shape(t).rows;
  }

  /** A row outside the trie, with room for a copy of its node. */
  ghost predicate CanCopyTo(h: Heap, loc: Loc, t: Trie) {
    loc.table in h && loc.index < |h[loc.table]| && loc.table !in Tables(t)
  }

  /** A table and its copy stand for the same trie. */
  lemma TableCopied(h: Heap, h': Heap, copy: Loc, t: Trie, u: Trie)
    requires t.Node? && u.Node? && Holds(h, t) && Separate(t) && CanCopyTo(h, copy, t) && u == t.(ptr := u.ptr)
    requires if t.rows == [] then u.ptr == 0 else FreshTable(h, u.ptr) && u.ptr in h' && h'[u.ptr] == RowsOf(t.rows)
    requires OnlyChanges(h, h', copy, {}, RowOf(u))
    ensures Anchored(h', copy, u) && OwnOrNew(h, Tables(t), u)
  {
    TablesInHeap(h, t);
    forall i | 0 <= i < |t.rows|
      ensures Holds(h', u.rows[i]) && u.ptr !in Tables(u.rows[i])
    {
      TablesOfRow(t, i);
      HoldsFrame(h, h', t.rows[i]);
    }
  }

  /** The copied trie: same shape, anchored at the path, new tables all along the way, and
      no table of the old heap touched but the one that holds the path row. */
  ghost predicate WayCopied(hf: LibHash, h: Heap, h': Heap, path: Loc, t: Trie, u: Trie, k: Key, d: nat, n: nat) {
    && Anchored(h', path, u) && Shape(u) == Shape(t) && OwnOrNew(h, Tables(t), u)
    && OnlyChanges(h, h', path, {}, RowOf(u))
    && Leads(hf, u, k, d, n) && NewWay(hf, h, u, k, d, n)
  }

  lemma NewerWay(hf: LibHash, h0: Heap, h: Heap, t: Trie, k: Key, d: nat, n: nat)
    requires Leads(hf, t, k, d, n) && NewWay(hf, h, t, k, d, n) && h0.Keys <= h.Keys
    ensures NewWay(hf, h0, t, k, d, n)
    decreases t
  {
    if d < n {
      NewerWay(hf, h0, h, t.rows[RowFor(hf, t, k, d)], k, d + 1, n);
    }
  }

  /** A copied node whose next node has been copied in turn. */
  lemma WayCopiedOn(hf: LibHash, h0: Heap, h: Heap, h': Heap, copy: Loc, t: Trie, u: Trie, k: Key, d: nat, n: nat, child: Trie)
    requires u.Node? && u.rows != [] && u.ptr !in h0 && Anchored(h, copy, u) && Shape(u) == Shape(t)
    requires OwnOrNew(h0, Tables(t), u) && OnlyChanges(h0, h, copy, {}, RowOf(u))
    requires Has(u.bitmap, ChunkOf(hf, k, d)) && RowFor(hf, u, k, d) < |u.rows| && d < n
    requires WayCopied(hf, h, h', Loc(u.ptr, RowFor(hf, u, k, d)), u.rows[RowFor(hf, u, k, d)], child, k, d + 1, n)
    ensures WayCopied(hf, h0, h', copy, t, u.(rows := u.rows[RowFor(hf, u, k, d) := child]), k, d, n)
  {
    hide Holds, Separate, Tables, Shape, OnlyChanges, OwnOrNew, Has, ChunkOf;
    var r := RowFor(hf, u, k, d);
    var u2 := u.(rows := u.rows[r := child]);
    WiderChanges(h, h', Loc(u.ptr, r), Tables(u.rows[r]), RowOf(child));
    ChildAnchored(h, u, copy, r);
    ChildInPlace(h, h', u, copy, r, child);
    ShapeOfRow(u, r, child);
    HeapGrew(h0, h, copy, RowOf(u));
    NewerWay(hf, h0, h, child, k, d + 1, n);
    CopyThenChange(h0, h, h', copy, u, r, child);
    StillNew(h0, h, Tables(t), u, u2);
  }

  lemma HeapGrew(h0: Heap, h: Heap, loc: Loc, row: Row)
    requires OnlyChanges(h0, h, loc, {}, row)
    ensures h0.Keys <= h.Keys
  {
  }

  /** A change to the copied table is no change to the old heap. */
  lemma CopyThenChange(h0: Heap, h: Heap, h': Heap, copy: Loc, u: Trie, r: nat, s: Trie)
    requires u.Node? && r < |u.rows| && u.ptr !in h0 && Anchored(h, copy, u) && OnlyChanges(h0, h, copy, {}, RowOf(u))
    requires OnlyChanges(h, h', Loc(u.ptr, r), {}, RowOf(s))
    ensures OnlyChanges(h0, h', copy, {}, RowOf(u.(rows := u.rows[r := s])))
  {
    assert u.ptr in Tables(u);
  }

  lemma StillNew(h0: Heap, h: Heap, own: set<Ptr>, u: Trie, u': Trie)
    requires OwnOrNew(h0, own, u) && OwnOrNew(h, Tables(u), u') && h0.Keys <= h.Keys
    ensures OwnOrNew(h0, own, u')
  {
  }

  lemma WiderChanges(h: Heap, h': Heap, loc: Loc, own: set<Ptr>, row: Row)
    requires OnlyChanges(h, h', loc, {}, row)
    ensures OnlyChanges(h, h', loc, own, row)
  {
  }

  lemma ShapeOfRow(t: Trie, r: nat, s: Trie)
    requires t.Node? && r < |t.rows| && Shape(s) == Shape(t.rows[r])
    ensures Shape(t.(rows := t.rows[r := s])) == Shape(t)
  {
    assert Shape(t.(rows := t.rows[r := s])).rows == Shape(t).rows;
  }

  /** What was found below a row was found below its node. */
  lemma FoundOn(hf: LibHash, t: Trie, loc: Loc, k: Key, d: nat, sr: SearchResult)
    requires t.Node? && Has(t.bitmap, ChunkOf(hf, k, d)) && RowFor(hf, t, k, d) < |t.rows|
    requires Found(hf, t.rows[RowFor(hf, t, k, d)], Loc(t.ptr, RowFor(hf, t, k, d)), k, d + 1, sr)
    ensures Found(hf, t, loc, k, d, sr) && d < sr.hash.depth
  {
  }

  lemma FoundHere(hf: LibHash, t: Trie, loc: Loc, k: Key, d: nat, sr: SearchResult)
    requires t.Node? && InSync(hf, sr.hash, k, d) && sr.anchor == loc && StopsAt(hf, t, k, d, sr)
    ensures Found(hf, t, loc, k, d, sr) && sr.hash.depth == d
  {
  }

  lemma WayCopiedHere(hf: LibHash, h: Heap, h': Heap, path: Loc, t: Trie, u: Trie, k: Key, d: nat)
    requires u.Node? && Anchored(h', path, u) && Shape(u) == Shape(t) && OwnOrNew(h, Tables(t), u)
    requires OnlyChanges(h, h', path, {}, RowOf(u)) && (u.rows != [] ==> u.ptr !in h)
    ensures WayCopied(hf, h, h', path, t, u, k, d, d)
  {
  }
}
