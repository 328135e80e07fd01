/** What changing one row, one table or one path of a hash trie does to its bindings. */
module TrieUpdate {
  import opened Wrappers
  import opened Words
  import opened Bitmap
  import opened HashTrie

  // ----- Hash chunks -----

  /** Keys are told apart by the part of their generation-0 hashes that chunks come from. */
  ghost predicate Distinct(hf: HashFn, keys: set<Key>) {
    forall k, k' | k in keys && k' in keys && k != k' :: !SameHash(hf, k, k')
  }

  function UsedBits(hf: HashFn, k: Key): nat {
    hf.code(k, 0) % Pow2(5 * hf.depths)
  }

  predicate SameHash(hf: HashFn, k: Key, k': Key) {
    UsedBits(hf, k) == UsedBits(hf, k')
  }

  /** The keys go the same way from depth d to depth n. */
  ghost predicate SameWay(hf: HashFn, k: Key, k': Key, d: nat, n: nat) {
    forall j | d <= j < n :: ChunkOf(hf, k, j) == ChunkOf(hf, k', j)
  }

  lemma {:induction false} ChunksMakeRemainder(h: nat, h': nat, n: nat)
    requires forall j | 0 <= j < n :: Chunk(h, j) == Chunk(h', j)
    ensures h % Pow2(5 * n) == h' % Pow2(5 * n)
  {
    if n > 0 {
      ChunksMakeRemainder(h, h', n - 1);
      assert Chunk(h, n - 1) == Chunk(h', n - 1);
      RemainderStep(h, n - 1);
      RemainderStep(h', n - 1);
    }
  }

  lemma Pow2Five(m: nat)
    ensures Pow2(m + 5) == 32 * Pow2(m)
  {
    assert Pow2(m + 2) == 4 * Pow2(m);
    assert Pow2(m + 4) == 4 * Pow2(m + 2) by { assert Pow2(m + 3) == 2 * Pow2(m + 2); }
  }

  /** Chunks are the digits of the hash to base 32, the lowest first. */
  lemma ChunksAreDigits(h: nat, d: nat)
    ensures Chunk(h, 0) == h % 32 && Chunk(h, d + 1) == Chunk(h / 32, d)
  {
    assert Pow2(0) == 1;
    Pow2Five(5 * d);
    assert 5 * (d + 1) == 5 * d + 5;
    DivDiv(h, 32, Pow2(5 * d));
  }

  lemma RemainderStep(h: nat, n: nat)
    ensures h % Pow2(5 * n + 5) == h % Pow2(5 * n) + Pow2(5 * n) * Chunk(h, n)
  {
    var p := Pow2(5 * n);
    Pow2Five(5 * n);
    SplitRemainder(h, p);
  }

  lemma SplitRemainder(h: nat, p: nat)
    requires p > 0
    ensures h % (32 * p) == h % p + p * (h / p % 32)
  {
    var q, r := h / p, h % p;
    var a, c := q / 32, q % 32;
    assert h == p * q + r && q == 32 * a + c;
    assert p * q == (32 * p) * a + p * c by {
      assert p * (32 * a + c) == p * (32 * a) + p * c;
      assert p * (32 * a) == (32 * p) * a;
    }
    assert 0 <= p * c + r < 32 * p by {
      MulMonotone(p, 0, c);
      MulMonotone(p, c, 31);
    }
    DivUnique(h, 32 * p, a, p * c + r);
  }

  /** Distinct keys part within the depths generation 0 supplies. */
  lemma KeysPart(hf: HashFn, keys: set<Key>, k: Key, k': Key)
    requires Distinct(hf, keys) && k in keys && k' in keys && k != k'
    ensures !SameWay(hf, k, k', 0, hf.depths)
  {
    if SameWay(hf, k, k', 0, hf.depths) {
      SameWaySameHash(hf, k, k');
    }
  }

  lemma SameWaySameHash(hf: HashFn, k: Key, k': Key)
    requires SameWay(hf, k, k', 0, hf.depths)
    ensures SameHash(hf, k, k')
  {
    forall j | 0 <= j < hf.depths
      ensures Chunk(hf.code(k, 0), j) == Chunk(hf.code(k', 0), j)
    {
      assert ChunkOf(hf, k, j) == ChunkOf(hf, k', j);
    }
    ChunksMakeRemainder(hf.code(k, 0), hf.code(k', 0), hf.depths);
  }

  lemma Pow2At30()
    ensures Pow2(30) == 0x4000_0000
  {
    Pow2Five(0);
    Pow2Five(5);
    Pow2Five(10);
    Pow2Five(15);
    Pow2Five(20);
    Pow2Five(25);
  }

  /** Keys on the same way to depth n part while generation 0 still supplies chunks. */
  lemma PartBefore(hf: HashFn, k: Key, k': Key, n: nat)
    requires !SameHash(hf, k, k') && SameWay(hf, k, k', 0, n)
    ensures n < hf.depths
  {
    if n >= hf.depths {
      assert SameWay(hf, k, k', 0, hf.depths);
      SameWaySameHash(hf, k, k');
    }
  }

  lemma WayOn(hf: HashFn, k: Key, k': Key, d: nat, n: nat)
    requires SameWay(hf, k, k', d, n) && ChunkOf(hf, k, n) == ChunkOf(hf, k', n)
    ensures SameWay(hf, k, k', d, n + 1)
  {
  }

  /** No more keys than hashes can tell apart. */
  lemma {:induction false} KeysAreFew(hf: HashFn, keys: set<Key>)
    requires Distinct(hf, keys)
    ensures |keys| <= Pow2(5 * hf.depths)
  {
    var codes := set k | k in keys :: UsedBits(hf, k);
    SameSize(hf, keys, codes);
    FewNumbers(codes, Pow2(5 * hf.depths));
  }

  lemma {:induction false} SameSize(hf: HashFn, keys: set<Key>, codes: set<nat>)
    requires Distinct(hf, keys) && codes == set k | k in keys :: UsedBits(hf, k)
    ensures |keys| == |codes|
  {
    if keys != {} {
      var k :| k in keys;
      var c := UsedBits(hf, k);
      var rest := keys - {k};
      forall x
        ensures x in codes - {c} <==> x in set k' | k' in rest :: UsedBits(hf, k')
      {
        if x in codes && x != c {
          var k' :| k' in keys && UsedBits(hf, k') == x;
          assert k' in rest;
        }
        if x == c {
          assert forall k' | k' in rest :: !SameHash(hf, k', k);
        }
      }
      SameSize(hf, rest, codes - {c});
      assert c in codes;
    }
  }

  lemma {:induction false} FewNumbers(s: set<nat>, n: nat)
    requires forall x | x in s :: x < n
    ensures |s| <= n
  {
    if n > 0 {
      FewNumbers(s - {n - 1}, n - 1);
    } else {
      assert forall x :: x !in s;
    }
  }

  // ----- Updates -----

  /** The bindings of u are those of t with key k bound as v says, or unbound. */
  ghost predicate Updates(hf: HashFn, t: Trie, u: Trie, k: Key, v: Option<nat>, d: nat) {
    forall k' :: UpdatesAt(hf, t, u, k, v, k', d)
  }

  predicate UpdatesAt(hf: HashFn, t: Trie, u: Trie, k: Key, v: Option<nat>, k': Key, d: nat) {
    Find(hf, u, k', d) == if k' == k then v else Find(hf, t, k', d)
  }

  ghost predicate OnlyAdds(t: Trie, u: Trie, k: Key) {
    Keys(u) <= Keys(t) + {k}
  }

  /** Replacing the row of a key. */
  lemma RowReplaced(hf: HashFn, t: Trie, k: Key, v: Option<nat>, d: nat, s: Trie)
    requires t.Node? && WellFormed(hf, t, d) && Has(t.bitmap, ChunkOf(hf, k, d))
    requires var r := Rank(t.bitmap, ChunkOf(hf, k, d));
      r < |t.rows| && WellFormed(hf, s, d + 1) && OnlyAdds(t.rows[r], s, k) && Updates(hf, t.rows[r], s, k, v, d + 1)
    ensures var r := Rank(t.bitmap, ChunkOf(hf, k, d)); var u := t.(rows := t.rows[r := s]);
      WellFormed(hf, u, d) && OnlyAdds(t, u, k) && Updates(hf, t, u, k, v, d)
  {
    var c := ChunkOf(hf, k, d);
    var r, e := Rank(t.bitmap, c), d + 1;
    var u := t.(rows := t.rows[r := s]);
    BitAtRank(t.bitmap, c);
    assert SharesChunk(hf, t.rows[r], d, c);
    assert SharesChunk(hf, s, d, c);
    forall k'
      ensures UpdatesAt(hf, t, u, k, v, k', d)
    {
      var c' := ChunkOf(hf, k', d);
      if Has(t.bitmap, c') {
        RankInjective(t.bitmap, c, c');
      }
      assert UpdatesAt(hf, t.rows[r], s, k, v, k', e);
    }
    RowKeys(t, u, r, k);
  }

  lemma RowKeys(t: Trie, u: Trie, r: nat, k: Key)
    requires t.Node? && u.Node? && r < |t.rows| == |u.rows| && u.rows == t.rows[r := u.rows[r]]
    requires OnlyAdds(t.rows[r], u.rows[r], k)
    ensures OnlyAdds(t, u, k)
  {
    forall k' | k' in Keys(u)
      ensures k' in Keys(t) + {k}
    {
      var i :| 0 <= i < |u.rows| && k' in Keys(u.rows[i]);
      if i != r {
        assert u.rows[i] == t.rows[i];
      }
    }
  }

  function InsertRow(t: Trie, c: nat, x: Trie, p: Ptr): Trie
    requires t.Node? && Rank(t.bitmap, c) <= |t.rows|
  {
    var r := Rank(t.bitmap, c);
    Node(p, Set(t.bitmap, c), t.rows[..r] + [x] + t.rows[r..])
  }

  function DeleteRow(t: Trie, c: nat, p: Ptr): Trie
    requires t.Node? && Rank(t.bitmap, c) < |t.rows|
  {
    var r := Rank(t.bitmap, c);
    Node(p, Clear(t.bitmap, c), t.rows[..r] + t.rows[r + 1..])
  }

  /** The chunk leads to the same row in both nodes. */
  predicate SameRowAt(t: Trie, u: Trie, c: nat)
    requires t.Node? && u.Node?
  {
    Rank(t.bitmap, c) < |t.rows| && Rank(u.bitmap, c) < |u.rows| &&
    u.rows[Rank(u.bitmap, c)] == t.rows[Rank(t.bitmap, c)]
  }

  /** After inserting at its rank, every chunk's row is at its new rank. */
  lemma InsertedAt(t: Trie, c: nat, x: Trie, p: Ptr, c': nat)
    requires t.Node? && |t.rows| == Popcount(t.bitmap) && !Has(t.bitmap, c) && Rank(t.bitmap, c) <= |t.rows|
    ensures var u := InsertRow(t, c, x, p);
      && |u.rows| == Popcount(u.bitmap) && (Has(u.bitmap, c') <==> c' == c || Has(t.bitmap, c'))
      && (c' == c ==> Rank(u.bitmap, c') < |u.rows| && u.rows[Rank(u.bitmap, c')] == x)
      && (Has(t.bitmap, c') ==> SameRowAt(t, u, c'))
  {
    HasSet(t.bitmap, c, c');
    RankSet(t.bitmap, c, c');
    RankBounds(t.bitmap, c');
    if c < c' {
      RankOrder(t.bitmap, c, c');
    } else if c' < c {
      RankOrder(t.bitmap, c', c);
    }
  }

  lemma DeletedAt(t: Trie, c: nat, p: Ptr, c': nat)
    requires t.Node? && |t.rows| == Popcount(t.bitmap) && Has(t.bitmap, c) && Rank(t.bitmap, c) < |t.rows|
    ensures var u := DeleteRow(t, c, p);
      && |u.rows| == Popcount(u.bitmap) && (Has(u.bitmap, c') <==> c' != c && Has(t.bitmap, c'))
      && (Has(u.bitmap, c') ==> SameRowAt(t, u, c'))
  {
    HasClear(t.bitmap, c, c');
    RankClear(t.bitmap, c, c');
    RankBounds(t.bitmap, c');
    if c < c' {
      RankOrder(t.bitmap, c, c');
    } else if c' < c {
      if Has(t.bitmap, c') {
        RankOrder(t.bitmap, c', c);
      }
    }
  }

  /** A node whose rows are right chunk by chunk is well formed. */
  lemma WellFormedByChunk(hf: HashFn, t: Trie, d: nat)
    requires t.Node? && d < hf.depths && Fits(t.bitmap, 32) && |t.rows| == Popcount(t.bitmap)
    requires forall c | Has(t.bitmap, c) && Rank(t.bitmap, c) < |t.rows| :: GoodRow(hf, t, c, d)
    ensures WellFormed(hf, t, d)
  {
    forall i | 0 <= i < |t.rows|
      ensures WellFormed(hf, t.rows[i], d + 1) && SharesChunk(hf, t.rows[i], d, BitAt(t.bitmap, i))
    {
      assert GoodRow(hf, t, BitAt(t.bitmap, i), d);
    }
  }

  ghost predicate GoodRow(hf: HashFn, t: Trie, c: nat, d: nat)
    requires t.Node? && Rank(t.bitmap, c) < |t.rows|
  {
    WellFormed(hf, t.rows[Rank(t.bitmap, c)], d + 1) && SharesChunk(hf, t.rows[Rank(t.bitmap, c)], d, c)
  }

  lemma GoodRowOf(hf: HashFn, t: Trie, c: nat, d: nat)
    requires t.Node? && WellFormed(hf, t, d) && Has(t.bitmap, c)
    ensures Rank(t.bitmap, c) < |t.rows| && GoodRow(hf, t, c, d)
  {
    BitAtRank(t.bitmap, c);
  }

  /** A new value row for a chunk that had none. */
  lemma RowInserted(hf: HashFn, t: Trie, k: Key, v: nat, d: nat, p: Ptr)
    requires t.Node? && WellFormed(hf, t, d) && !Has(t.bitmap, ChunkOf(hf, k, d)) && Storable(hf, v)
    ensures Rank(t.bitmap, ChunkOf(hf, k, d)) <= |t.rows|
    ensures var u := InsertRow(t, ChunkOf(hf, k, d), Leaf(k, v), p);
      WellFormed(hf, u, d) && OnlyAdds(t, u, k) && Updates(hf, t, u, k, Some(v), d)
  {
    var c, x := ChunkOf(hf, k, d), Leaf(k, v);
    RankBounds(t.bitmap, c);
    var u := InsertRow(t, c, x, p);
    FitsKept(t.bitmap, 32, c);
    InsertedAt(t, c, x, p, c);
    forall c' | Has(u.bitmap, c') && Rank(u.bitmap, c') < |u.rows|
      ensures GoodRow(hf, u, c', d)
    {
      InsertedAt(t, c, x, p, c');
      if c' != c {
        GoodRowOf(hf, t, c', d);
      }
    }
    WellFormedByChunk(hf, u, d);
    forall k'
      ensures UpdatesAt(hf, t, u, k, Some(v), k', d)
    {
      InsertedAt(t, c, x, p, ChunkOf(hf, k', d));
    }
    InsertedKeys(t, u, c, k, v, p);
  }

  lemma InsertedKeys(t: Trie, u: Trie, c: nat, k: Key, v: nat, p: Ptr)
    requires t.Node? && Rank(t.bitmap, c) <= |t.rows| && u == InsertRow(t, c, Leaf(k, v), p)
    ensures OnlyAdds(t, u, k)
  {
    var r := Rank(t.bitmap, c);
    forall k' | k' in Keys(u)
      ensures k' in Keys(t) + {k}
    {
      var i :| 0 <= i < |u.rows| && k' in Keys(u.rows[i]);
      if i < r {
        assert u.rows[i] == t.rows[i];
      } else if i > r {
        assert u.rows[i] == t.rows[i - 1];
      }
    }
  }

  /** Deleting the value row of a key. */
  lemma RowDeleted(hf: HashFn, t: Trie, k: Key, d: nat, p: Ptr)
    requires t.Node? && WellFormed(hf, t, d) && Has(t.bitmap, ChunkOf(hf, k, d))
    requires var r := Rank(t.bitmap, ChunkOf(hf, k, d)); r < |t.rows| && t.rows[r].Leaf? && t.rows[r].key == k
    ensures var u := DeleteRow(t, ChunkOf(hf, k, d), p);
      WellFormed(hf, u, d) && OnlyAdds(t, u, k) && Updates(hf, t, u, k, None, d)
  {
    var c := ChunkOf(hf, k, d);
    DeletedWellFormed(hf, t, c, d, p);
    DeletedKeys(t, DeleteRow(t, c, p), c, k, p);
    forall k'
      ensures UpdatesAt(hf, t, DeleteRow(t, c, p), k, None, k', d)
    {
      DeletedFind(hf, t, k, d, p, k');
    }
  }

  lemma DeletedFind(hf: HashFn, t: Trie, k: Key, d: nat, p: Ptr, k': Key)
    requires t.Node? && |t.rows| == Popcount(t.bitmap) && Has(t.bitmap, ChunkOf(hf, k, d))
    requires var r := Rank(t.bitmap, ChunkOf(hf, k, d)); r < |t.rows| && t.rows[r].Leaf? && t.rows[r].key == k
    ensures UpdatesAt(hf, t, DeleteRow(t, ChunkOf(hf, k, d), p), k, None, k', d)
  {
    hide Has, Clear, Rank, Popcount;
    var c, c' := ChunkOf(hf, k, d), ChunkOf(hf, k', d);
    var u := DeleteRow(t, c, p);
    DeletedAt(t, c, p, c');
    if Has(t.bitmap, c') {
      RankBounds(t.bitmap, c');
      if c' == c {
        assert Find(hf, u, k', d) == None;
        assert Find(hf, t, k', d) == Find(hf, t.rows[Rank(t.bitmap, c)], k', d + 1);
      } else {
        assert SameRowAt(t, u, c');
        assert Find(hf, t, k', d) == Find(hf, t.rows[Rank(t.bitmap, c')], k', d + 1);
        assert Find(hf, u, k', d) == Find(hf, u.rows[Rank(u.bitmap, c')], k', d + 1);
      }
    } else {
      assert Find(hf, u, k', d) == None;
      assert Find(hf, t, k', d) == None;
    }
  }

  lemma DeletedWellFormed(hf: HashFn, t: Trie, c: nat, d: nat, p: Ptr)
    requires t.Node? && WellFormed(hf, t, d) && Has(t.bitmap, c) && c < 32 && Rank(t.bitmap, c) < |t.rows|
    ensures WellFormed(hf, DeleteRow(t, c, p), d) && |t.rows| == Popcount(t.bitmap)
  {
    var u := DeleteRow(t, c, p);
    FitsKept(t.bitmap, 32, c);
    DeletedAt(t, c, p, c);
    forall c' | Has(u.bitmap, c') && Rank(u.bitmap, c') < |u.rows|
      ensures GoodRow(hf, u, c', d)
    {
      DeletedAt(t, c, p, c');
      GoodRowOf(hf, t, c', d);
    }
    WellFormedByChunk(hf, u, d);
  }

  lemma DeletedKeys(t: Trie, u: Trie, c: nat, k: Key, p: Ptr)
    requires t.Node? && Rank(t.bitmap, c) < |t.rows| && u == DeleteRow(t, c, p)
    ensures OnlyAdds(t, u, k) && Keys(u) <= Keys(t)
  {
    var r := Rank(t.bitmap, c);
    forall k' | k' in Keys(u)
      ensures k' in Keys(t)
    {
      var i :| 0 <= i < |u.rows| && k' in Keys(u.rows[i]);
      assert u.rows[i] == t.rows[if i < r then i else i + 1];
    }
  }

  /** A table with a single value row says what the value alone says. */
  lemma SingleValue(hf: HashFn, t: Trie, d: nat)
    requires t.Node? && WellFormed(hf, t, d) && |t.rows| == 1 && t.rows[0].Leaf?
    ensures SameBindings(hf, t, t.rows[0], d) && Keys(t) == Keys(t.rows[0])
  {
    var x, c := t.rows[0], BitAt(t.bitmap, 0);
    forall k
      ensures Alike(hf, t, x, k, d)
    {
      if Has(t.bitmap, ChunkOf(hf, k, d)) {
        RankBounds(t.bitmap, ChunkOf(hf, k, d));
      }
      assert SharesChunk(hf, x, d, c) && x.key in Keys(x);
    }
  }

  // ----- Two values in tables of their own -----

  /** A subtrie for an old value x and a new value y. */
  ghost predicate Pairs(hf: HashFn, s: Trie, x: Trie, y: Trie, e: nat)
    requires x.Leaf? && y.Leaf?
  {
    && s.Node? && WellFormed(hf, s, e) && Compact(s)
    && OnlyAdds(x, s, y.key) && Updates(hf, x, s, y.key, Some(y.value), e)
  }

  function PairRows(cx: nat, cy: nat, x: Trie, y: Trie): seq<Trie> {
    if cx < cy then [x, y] else [y, x]
  }

  lemma PairBits(cx: nat, cy: nat, c: nat)
    requires cx != cy && cx < 32 && cy < 32
    ensures var b := Set(Set(0, cx), cy);
      && Fits(b, 32) && Popcount(b) == 2 && (Has(b, c) <==> c == cx || c == cy)
      && Rank(b, cx) == (if cx < cy then 0 else 1) && Rank(b, cy) == (if cx < cy then 1 else 0)
  {
    var b0 := Set(0, cx);
    var b := Set(b0, cy);
    EmptyFits(32);
    FitsKept(0, 32, cx);
    FitsKept(b0, 32, cy);
    NoBits(cx);
    NoBits(cy);
    NoBits(c);
    HasSet(0, cx, c);
    HasSet(0, cx, cy);
    HasSet(b0, cy, c);
    RankSet(0, cx, cx);
    RankSet(0, cx, cy);
    RankSet(b0, cy, cx);
    RankSet(b0, cy, cy);
  }

  lemma {:induction false} EmptyFits(n: nat)
    ensures Fits(0, n)
  {
    if n > 0 {
      EmptyFits(n - 1);
    }
  }

  lemma SingleBit(c: nat, c': nat)
    requires c < 32
    ensures var b := Set(0, c);
      Fits(b, 32) && Popcount(b) == 1 && (Has(b, c') <==> c' == c) && Rank(b, c) == 0
  {
    EmptyFits(32);
    FitsKept(0, 32, c);
    NoBits(c);
    NoBits(c');
    HasSet(0, c, c');
    RankSet(0, c, c);
  }

  /** The keys part here: one table with two value rows, in chunk order. */
  lemma PairNode(hf: HashFn, x: Trie, y: Trie, e: nat, ptr: Ptr)
    requires x.Leaf? && y.Leaf? && Storable(hf, x.value) && Storable(hf, y.value) && e < hf.depths
    requires ChunkOf(hf, x.key, e) != ChunkOf(hf, y.key, e)
    ensures var cx, cy := ChunkOf(hf, x.key, e), ChunkOf(hf, y.key, e);
      Pairs(hf, Node(ptr, Set(Set(0, cx), cy), PairRows(cx, cy, x, y)), x, y, e)
  {
    var cx, cy := ChunkOf(hf, x.key, e), ChunkOf(hf, y.key, e);
    var s := Node(ptr, Set(Set(0, cx), cy), PairRows(cx, cy, x, y));
    PairBits(cx, cy, cx);
    forall c | Has(s.bitmap, c) && Rank(s.bitmap, c) < |s.rows|
      ensures GoodRow(hf, s, c, e)
    {
      PairBits(cx, cy, c);
    }
    WellFormedByChunk(hf, s, e);
    forall k
      ensures UpdatesAt(hf, x, s, y.key, Some(y.value), k, e)
    {
      PairBits(cx, cy, ChunkOf(hf, k, e));
    }
  }

  /** They go on together: one table with a single row. */
  lemma ChainNode(hf: HashFn, x: Trie, y: Trie, e: nat, ptr: Ptr, s: Trie)
    requires x.Leaf? && y.Leaf? && e < hf.depths && Pairs(hf, s, x, y, e + 1)
    requires ChunkOf(hf, x.key, e) == ChunkOf(hf, y.key, e)
    ensures Pairs(hf, Node(ptr, Set(0, ChunkOf(hf, y.key, e)), [s]), x, y, e)
  {
    var c, e' := ChunkOf(hf, y.key, e), e + 1;
    var u := Node(ptr, Set(0, c), [s]);
    SingleBit(c, c);
    assert SharesChunk(hf, s, e, c);
    forall c' | Has(u.bitmap, c') && Rank(u.bitmap, c') < |u.rows|
      ensures GoodRow(hf, u, c', e)
    {
      SingleBit(c, c');
    }
    WellFormedByChunk(hf, u, e);
    forall k
      ensures UpdatesAt(hf, x, u, y.key, Some(y.value), k, e)
    {
      SingleBit(c, ChunkOf(hf, k, e));
      assert UpdatesAt(hf, x, s, y.key, Some(y.value), k, e');
    }
    forall k | k in Keys(u)
      ensures k in Keys(x) + {y.key}
    {
      var i :| 0 <= i < |u.rows| && k in Keys(u.rows[i]);
    }
  }
}
