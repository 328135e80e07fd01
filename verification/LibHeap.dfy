/** Tables in memory (src/hamt/internal_types.h): two-word rows, tables by address, and
    what it takes for a row to hold a trie. */
module LibHeap {
  import opened Wrappers
  import opened Bitmap
  import opened HashTrie
  import opened TrieUpdate

  /** Six depths of five bits, from hashes of 32 bits, and pointers with two clear bits. */
  type LibHash = hf: HashFn | hf.depths == DEPTHS && hf.grain == 4 witness HashFn((k, g) => 0, DEPTHS, 4)

  const DEPTHS: nat := 6

  /** struct hamt_node: a tagged value with its key, or a table address with its bitmap. */
  datatype Row = Row(word: nat, other: nat)

  const TAG_VALUE: nat := 1

  /** tagged(v) for a value whose two low bits are clear. */
  function Tagged(v: nat): nat {
    v - v % 2 + TAG_VALUE
  }

  function Untagged(w: nat): nat {
    w - w % 4
  }

  predicate IsValue(r: Row) {
    r.word % 4 == TAG_VALUE
  }

  type Heap = map<Ptr, seq<Row>>

  /** A row: a table address and an index into the table. */
  datatype Loc = Loc(table: Ptr, index: nat)

  function RowOf(t: Trie): Row {
    match t
    case Leaf(k, v) => Row(Tagged(v), k)
    case Node(p, b, _) => Row(p, b)
  }

  function RowsOf(ts: seq<Trie>): (rows: seq<Row>)
    ensures |rows| == |ts| && forall i | 0 <= i < |ts| :: rows[i] == RowOf(ts[i])
  {
    seq(|ts|, i requires 0 <= i < |ts| => RowOf(ts[i]))
  }

  /** The tables of a trie. An empty root has none. */
  function Tables(t: Trie): set<Ptr> {
    match t
    case Leaf(_, _) => {}
    case Node(p, _, rows) =>
      (if rows == [] then {} else {p}) + set i, q | 0 <= i < |rows| && q in Tables(rows[i]) :: q
  }

  /** Memory holds the tables of the trie, row by row. */
  ghost predicate Holds(h: Heap, t: Trie) {
    t.Node? ==>
      && t.ptr % 4 == 0
      && (t.rows == [] ==> t.ptr == 0)
      && (t.rows != [] ==> t.ptr != 0 && t.ptr in h && h[t.ptr] == RowsOf(t.rows))
      && forall i | 0 <= i < |t.rows| :: Holds(h, t.rows[i])
  }

  /** The row reached from a row by way of these positions, through one table each. */
  function RowBelow(h: Heap, r: Row, way: seq<nat>): Option<Row>
    decreases way
  {
    if way == [] then Some(r)
    else if r.word % 4 != 0 || r.word == 0 || r.word !in h || way[0] >= |h[r.word]| then None
    else RowBelow(h, h[r.word][way[0]], way[1..])
  }

  /** Rows that say the same, wherever their tables lie: the same tagged value and key, or
      tables with the same bitmap. */
  predicate SameRows(x: Option<Row>, y: Option<Row>) {
    if x.Some? && y.Some? then
      && x.value.other == y.value.other && (x.value.word % 4 == 0 <==> y.value.word % 4 == 0)
      && (x.value.word % 4 != 0 ==> x.value.word == y.value.word)
    else x == y
  }

  /** The rows that hold two tries of one shape. */
  lemma SameFirst(h: Heap, g: Heap, t: Trie, u: Trie)
    requires Holds(h, t) && Holds(g, u) && Shape(t) == Shape(u)
    ensures SameRows(Some(RowOf(t)), Some(RowOf(u)))
  {
    hide Holds, Tagged;
    if t.Node? {
      TwoClearBits(h, t);
      TwoClearBits(g, u);
    }
  }

  lemma TwoClearBits(h: Heap, t: Trie)
    requires Holds(h, t) && t.Node?
    ensures t.ptr % 4 == 0
  {
  }

  /** One step further down. */
  lemma RowStep(h: Heap, t: Trie, way: seq<nat>)
    requires Holds(h, t) && way != []
    ensures RowBelow(h, RowOf(t), way) ==
      if t.Node? && way[0] < |t.rows| then RowBelow(h, RowOf(t.rows[way[0]]), way[1..]) else None
    ensures t.Node? && way[0] < |t.rows| ==> Holds(h, t.rows[way[0]])
  {
  }

  /** Two memories that hold tries of one shape agree on every row below. */
  lemma {:induction false} ShapeInMemory(h: Heap, g: Heap, t: Trie, u: Trie, way: seq<nat>)
    requires Holds(h, t) && Holds(g, u) && Shape(t) == Shape(u)
    ensures SameRows(RowBelow(h, RowOf(t), way), RowBelow(g, RowOf(u), way))
    decreases way
  {
    hide Holds, SameRows;
    SameFirst(h, g, t, u);
    if way != [] {
      hide RowBelow;
      RowStep(h, t, way);
      RowStep(g, u, way);
      if t.Node? && way[0] < |t.rows| {
        assert Shape(t).rows[way[0]] == Shape(u).rows[way[0]];
        ShapeInMemory(h, g, t.rows[way[0]], u.rows[way[0]], way[1..]);
      } else {
        NothingBelow();
      }
    }
  }

  lemma NothingBelow()
    ensures SameRows(None, None)
  {
  }

  /** No table is used twice. */
  ghost predicate Separate(t: Trie) {
    t.Node? ==>
      && (forall i | 0 <= i < |t.rows| :: Separate(t.rows[i]) && t.ptr !in Tables(t.rows[i]))
      && (forall i, j | 0 <= i < j < |t.rows| :: Tables(t.rows[i]) !! Tables(t.rows[j]))
  }

  /** The row at a location is the trie's, and its table is not one of the trie's own. */
  ghost predicate Anchored(h: Heap, loc: Loc, t: Trie) {
    && loc.table in h && loc.index < |h[loc.table]| && h[loc.table][loc.index] == RowOf(t)
    && loc.table !in Tables(t)
    && Holds(h, t) && Separate(t)
  }

  lemma {:induction false} TablesInHeap(h: Heap, t: Trie)
    requires Holds(h, t)
    ensures Tables(t) <= h.Keys
    decreases t
  {
    if t.Node? {
      forall q | q in Tables(t)
        ensures q in h.Keys
      {
        if q != t.ptr || t.rows == [] {
          var i :| 0 <= i < |t.rows| && q in Tables(t.rows[i]);
          TablesInHeap(h, t.rows[i]);
        }
      }
    }
  }

  lemma TablesOfRow(t: Trie, i: nat)
    requires t.Node? && i < |t.rows|
    ensures Tables(t.rows[i]) <= Tables(t)
  {
  }

  /** Only the trie's own tables matter to it. */
  lemma {:induction false} HoldsFrame(h: Heap, h': Heap, t: Trie)
    requires Holds(h, t)
    requires forall q | q in Tables(t) && q in h :: q in h' && h'[q] == h[q]
    ensures Holds(h', t)
    decreases t
  {
    if t.Node? {
      if t.rows != [] {
        assert t.ptr in Tables(t);
      }
      forall i | 0 <= i < |t.rows|
        ensures Holds(h', t.rows[i])
      {
        TablesOfRow(t, i);
        HoldsFrame(h, h', t.rows[i]);
      }
    }
  }

  /** Every table of the heap except one row and the tables in a set is as it was. */
  ghost predicate OnlyChanges(h: Heap, h': Heap, loc: Loc, own: set<Ptr>, row: Row) {
    && (forall q | q in h && q != loc.table && q !in own :: q in h' && h'[q] == h[q])
    && loc.table in h && loc.table in h' && loc.index < |h[loc.table]|
    && h'[loc.table] == h[loc.table][loc.index := row]
  }

  /** Tables that are new or belonged to the part that is replaced. */
  ghost predicate OwnOrNew(h: Heap, own: set<Ptr>, t: Trie) {
    forall q | q in Tables(t) :: q in own || q !in h
  }

  /** Replacing one row of a node: what the rest needs to stay in place. */
  lemma RowInPlace(h: Heap, h': Heap, t: Trie, r: nat, s: Trie)
    requires t.Node? && r < |t.rows| && Holds(h, t) && Separate(t)
    requires OnlyChanges(h, h', Loc(t.ptr, r), Tables(t.rows[r]), RowOf(s))
    requires Holds(h', s) && Separate(s) && OwnOrNew(h, Tables(t.rows[r]), s)
    ensures var u := t.(rows := t.rows[r := s]); Holds(h', u) && Separate(u) && OwnOrNew(h, Tables(t), u)
  {
    var u := t.(rows := t.rows[r := s]);
    TablesInHeap(h, t);
    forall i | 0 <= i < |u.rows|
      ensures Holds(h', u.rows[i]) && Separate(u.rows[i]) && t.ptr !in Tables(u.rows[i])
    {
      if i != r {
        TablesOfRow(t, i);
        assert Tables(t.rows[i]) !! Tables(t.rows[r]);
        HoldsFrame(h, h', t.rows[i]);
      }
    }
    RowsApart(h, t, r, s);
    assert h'[t.ptr] == RowsOf(u.rows);
    TablesAfter(h, t, r, s);
  }

  lemma RowsApart(h: Heap, t: Trie, r: nat, s: Trie)
    requires t.Node? && r < |t.rows| && Holds(h, t) && Separate(t)
    requires OwnOrNew(h, Tables(t.rows[r]), s)
    ensures var us := t.rows[r := s]; forall i, j | 0 <= i < j < |us| :: Tables(us[i]) !! Tables(us[j])
  {
    var us := t.rows[r := s];
    TablesInHeap(h, t);
    forall i, j | 0 <= i < j < |us|
      ensures Tables(us[i]) !! Tables(us[j])
    {
      assert Tables(t.rows[i]) !! Tables(t.rows[j]);
      TablesOfRow(t, i);
      TablesOfRow(t, j);
    }
  }

  lemma TablesAfter(h: Heap, t: Trie, r: nat, s: Trie)
    requires t.Node? && r < |t.rows| && OwnOrNew(h, Tables(t.rows[r]), s)
    ensures OwnOrNew(h, Tables(t), t.(rows := t.rows[r := s]))
  {
    var u := t.(rows := t.rows[r := s]);
    forall q | q in Tables(u)
      ensures q in Tables(t) || q !in h
    {
      if q != t.ptr {
        var i :| 0 <= i < |u.rows| && q in Tables(u.rows[i]);
        if i == r {
          TablesOfRow(t, r);
        } else {
          TablesOfRow(t, i);
        }
      }
    }
  }

  // ----- Following a key -----

  /** The key's way leads through tables from depth d down to depth n. */
  predicate Leads(hf: LibHash, t: Trie, k: Key, d: nat, n: nat)
    decreases t
  {
    d <= n && (d < n ==>
      && t.Node? && Has(t.bitmap, ChunkOf(hf, k, d)) && RowFor(hf, t, k, d) < |t.rows|
      && Leads(hf, t.rows[RowFor(hf, t, k, d)], k, d + 1, n))
  }

  function At(hf: LibHash, t: Trie, k: Key, d: nat, n: nat): Trie
    requires Leads(hf, t, k, d, n)
    decreases t
  {
    if d == n then t else At(hf, t.rows[RowFor(hf, t, k, d)], k, d + 1, n)
  }

  /** Where the row for depth n is, when the row for depth d is at loc. */
  function LocAt(hf: LibHash, t: Trie, loc: Loc, k: Key, d: nat, n: nat): Loc
    requires Leads(hf, t, k, d, n)
    decreases t
  {
    if d == n then loc
    else LocAt(hf, t.rows[RowFor(hf, t, k, d)], Loc(t.ptr, RowFor(hf, t, k, d)), k, d + 1, n)
  }

  function Replace(hf: LibHash, t: Trie, k: Key, d: nat, n: nat, s: Trie): Trie
    requires Leads(hf, t, k, d, n)
    decreases t
  {
    if d == n then s
    else
      var r := RowFor(hf, t, k, d);
      t.(rows := t.rows[r := Replace(hf, t.rows[r], k, d + 1, n, s)])
  }

  /** One more step down. */
  lemma {:induction false} LeadsOn(hf: LibHash, t: Trie, loc: Loc, k: Key, d: nat, n: nat)
    requires Leads(hf, t, k, d, n)
    requires var a := At(hf, t, k, d, n);
      a.Node? && Has(a.bitmap, ChunkOf(hf, k, n)) && RowFor(hf, a, k, n) < |a.rows|
    ensures var a := At(hf, t, k, d, n); var r := RowFor(hf, a, k, n);
      && Leads(hf, t, k, d, n + 1) && At(hf, t, k, d, n + 1) == a.rows[r]
      && LocAt(hf, t, loc, k, d, n + 1) == Loc(a.ptr, r)
    decreases t
  {
    if d < n {
      var r := RowFor(hf, t, k, d);
      LeadsOn(hf, t.rows[r], Loc(t.ptr, r), k, d + 1, n);
    } else {
      var r := RowFor(hf, t, k, d);
      assert Leads(hf, t.rows[r], k, d + 1, d + 1);
      assert LocAt(hf, t.rows[r], Loc(t.ptr, r), k, d + 1, d + 1) == Loc(t.ptr, r);
    }
  }

  lemma {:induction false} WellFormedAt(hf: LibHash, t: Trie, k: Key, d: nat, n: nat)
    requires Leads(hf, t, k, d, n) && WellFormed(hf, t, d)
    ensures WellFormed(hf, At(hf, t, k, d, n), n)
    ensures forall x | x in Keys(At(hf, t, k, d, n)) :: x in Keys(t) && SameWay(hf, x, k, d, n)
    decreases t
  {
    if d < n {
      var c, r := ChunkOf(hf, k, d), RowFor(hf, t, k, d);
      BitAtRank(t.bitmap, c);
      WellFormedAt(hf, t.rows[r], k, d + 1, n);
      assert SharesChunk(hf, t.rows[r], d, c);
      forall x | x in Keys(At(hf, t, k, d, n))
        ensures x in Keys(t) && SameWay(hf, x, k, d, n)
      {
        assert SameWay(hf, x, k, d + 1, n);
      }
    }
  }

  /** An update at the end of the key's way is an update of the whole. */
  lemma {:induction false} ReplaceUpdates(hf: LibHash, t: Trie, k: Key, v: Option<nat>, d: nat, n: nat, s: Trie)
    requires Leads(hf, t, k, d, n) && WellFormed(hf, t, d)
    requires var a := At(hf, t, k, d, n);
      WellFormed(hf, s, n) && OnlyAdds(a, s, k) && Updates(hf, a, s, k, v, n)
    ensures var u := Replace(hf, t, k, d, n, s);
      WellFormed(hf, u, d) && OnlyAdds(t, u, k) && Updates(hf, t, u, k, v, d)
    decreases t
  {
    if d < n {
      var r := RowFor(hf, t, k, d);
      ReplaceUpdates(hf, t.rows[r], k, v, d + 1, n, s);
      RowReplaced(hf, t, k, v, d, Replace(hf, t.rows[r], k, d + 1, n, s));
    }
  }

  /** Compactness survives when a table is not replaced by a value. */
  lemma {:induction false} ReplaceCompact(hf: LibHash, t: Trie, k: Key, d: nat, n: nat, s: Trie)
    requires Leads(hf, t, k, d, n) && (At(hf, t, k, d, n).Node? ==> s.Node?)
    ensures Compact(t) && Compact(s) ==> Compact(Replace(hf, t, k, d, n, s))
    ensures CompactRoot(t) && (if d == n then CompactRoot(s) else Compact(s)) ==>
      CompactRoot(Replace(hf, t, k, d, n, s))
    decreases t
  {
    if d < n {
      ReplaceCompact(hf, t.rows[RowFor(hf, t, k, d)], k, d + 1, n, s);
    }
  }

  /** A node whose row r has become the given trie, in place. */
  lemma ChildInPlace(h: Heap, h': Heap, t: Trie, loc: Loc, r: nat, s: Trie)
    requires t.Node? && r < |t.rows| && Anchored(h, loc, t)
    requires OnlyChanges(h, h', Loc(t.ptr, r), Tables(t.rows[r]), RowOf(s))
    requires Holds(h', s) && Separate(s) && OwnOrNew(h, Tables(t.rows[r]), s)
    ensures var u := t.(rows := t.rows[r := s]);
      && Anchored(h', loc, u) && OwnOrNew(h, Tables(t), u)
      && OnlyChanges(h, h', loc, Tables(t), RowOf(u))
  {
    hide Holds, Separate;
    TablesOfRow(t, r);
    RowInPlace(h, h', t, r, s);
    assert t.ptr in Tables(t);
    assert h[loc.table][loc.index := RowOf(t)] == h[loc.table];
  }

  /** The same in memory: rewriting one row, and tables that are new or were below it. */
  lemma {:induction false} ReplaceInPlace(hf: LibHash, h: Heap, h': Heap, t: Trie, loc: Loc, k: Key, d: nat, n: nat, s: Trie)
    requires Leads(hf, t, k, d, n) && Anchored(h, loc, t)
    requires var a := At(hf, t, k, d, n);
      && OnlyChanges(h, h', LocAt(hf, t, loc, k, d, n), Tables(a), RowOf(s))
      && Holds(h', s) && Separate(s) && OwnOrNew(h, Tables(a), s)
    ensures var u := Replace(hf, t, k, d, n, s);
      && Anchored(h', loc, u) && OwnOrNew(h, Tables(t), u)
      && OnlyChanges(h, h', loc, Tables(t), RowOf(u))
    decreases t
  {
    hide OnlyChanges, OwnOrNew, Tables, Holds, Separate;
    if d < n {
      var r := RowFor(hf, t, k, d);
      ChildAnchored(h, t, loc, r);
      ReplaceInPlace(hf, h, h', t.rows[r], Loc(t.ptr, r), k, d + 1, n, s);
      ChildInPlace(h, h', t, loc, r, Replace(hf, t.rows[r], k, d + 1, n, s));
    } else {
      RootInPlace(h, h', t, loc, s);
    }
  }

  lemma RootInPlace(h: Heap, h': Heap, t: Trie, loc: Loc, s: Trie)
    requires Anchored(h, loc, t) && OnlyChanges(h, h', loc, Tables(t), RowOf(s))
    requires Holds(h', s) && Separate(s) && OwnOrNew(h, Tables(t), s)
    ensures Anchored(h', loc, s)
  {
    hide Holds, Separate;
  }

  lemma ChildAnchored(h: Heap, t: Trie, loc: Loc, r: nat)
    requires t.Node? && r < |t.rows| && Anchored(h, loc, t)
    ensures Anchored(h, Loc(t.ptr, r), t.rows[r]) && loc.table !in Tables(t.rows[r]) && loc.table != t.ptr
    ensures t.ptr in Tables(t)
  {
    TablesOfRow(t, r);
  }
}
