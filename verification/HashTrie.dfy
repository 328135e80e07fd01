/** The shape of both hash tries (src/hamt/hamt.c, src/hamt.c) and what a shape says about
    a key. Where a node lives is recorded with it but plays no part here. */
module HashTrie {
  import opened Wrappers
  import opened Words
  import opened Bitmap

  type Ptr = nat
  type Key = nat

  /** How keys and values go into a trie: the hash of a key at a generation, for how many
      depths generation 0 supplies chunks, and what the values are multiples of. */
  datatype HashFn = HashFn(code: (Key, nat) -> nat, depths: nat, grain: Positive)

  type Positive = n: nat | n > 0 witness 1

  predicate Storable(hf: HashFn, v: nat) {
    v % hf.grain == 0
  }

  /** (hash >> 5 * depth) & 0x1f. */
  function Chunk(h: nat, depth: nat): (c: nat)
    ensures c < 32
  {
    h / Pow2(5 * depth) % 32
  }

  function ChunkOf(hf: HashFn, k: Key, depth: nat): (c: nat)
    ensures c < 32
  {
    Chunk(hf.code(k, 0), depth)
  }

  datatype Trie =
    | Leaf(key: Key, value: nat)
    | Node(ptr: Ptr, bitmap: nat, rows: seq<Trie>)

  /** The row a key's chunk selects, counted from the set bits below it. */
  function RowFor(hf: HashFn, t: Trie, k: Key, d: nat): nat
    requires t.Node?
  {
    Rank(t.bitmap, ChunkOf(hf, k, d))
  }

  function Keys(t: Trie): set<Key> {
    match t
    case Leaf(k, _) => {k}
    case Node(_, _, rows) => set i, k | 0 <= i < |rows| && k in Keys(rows[i]) :: k
  }

  /** One row per set bit, and below each row only keys with its chunk. */
  ghost predicate WellFormed(hf: HashFn, t: Trie, d: nat) {
    match t
    case Leaf(_, v) => Storable(hf, v)
    case Node(_, b, rows) =>
      d < hf.depths && Fits(b, 32) && |rows| == Popcount(b) &&
      forall i | 0 <= i < |rows| :: WellFormed(hf, rows[i], d + 1) && SharesChunk(hf, rows[i], d, BitAt(b, i))
  }

  ghost predicate SharesChunk(hf: HashFn, t: Trie, d: nat, c: nat) {
    forall k | k in Keys(t) :: ChunkOf(hf, k, d) == c
  }

  /** No table below the root is empty or holds a single value row. */
  ghost predicate Compact(t: Trie) {
    t.Node? ==>
      && t.rows != []
      && (|t.rows| == 1 ==> t.rows[0].Node?)
      && forall i | 0 <= i < |t.rows| :: Compact(t.rows[i])
  }

  ghost predicate CompactRoot(t: Trie) {
    t.Node? && forall i | 0 <= i < |t.rows| :: Compact(t.rows[i])
  }

  /** The search a key's chunks prescribe. */
  function Find(hf: HashFn, t: Trie, k: Key, d: nat): Option<nat> {
    match t
    case Leaf(k', v) => if k' == k then Some(v) else None
    case Node(_, b, rows) =>
      var c := ChunkOf(hf, k, d);
      if Has(b, c) && Rank(b, c) < |rows| then Find(hf, rows[Rank(b, c)], k, d + 1) else None
  }

  /** The trie without its addresses. */
  function Shape(t: Trie): (s: Trie)
    ensures t.Node? ==> s.Node? && |s.rows| == |t.rows| && forall i | 0 <= i < |t.rows| :: s.rows[i] == Shape(t.rows[i])
  {
    match t
    case Leaf(_, _) => t
    case Node(_, b, rows) => Node(0, b, seq(|rows|, i requires 0 <= i < |rows| => Shape(rows[i])))
  }

  lemma BitAtRank(b: nat, c: nat)
    requires Has(b, c)
    ensures Rank(b, c) < Popcount(b) && BitAt(b, Rank(b, c)) == c
  {
    RankBounds(b, c);
    RankInjective(b, c, BitAt(b, Rank(b, c)));
  }

  /** A key is found exactly when the trie holds it. */
  lemma {:induction false} FindIffKey(hf: HashFn, t: Trie, k: Key, d: nat)
    requires WellFormed(hf, t, d)
    ensures Find(hf, t, k, d).Some? <==> k in Keys(t)
    decreases t
  {
    if t.Node? {
      var c := ChunkOf(hf, k, d);
      if Has(t.bitmap, c) {
        BitAtRank(t.bitmap, c);
        FindIffKey(hf, t.rows[Rank(t.bitmap, c)], k, d + 1);
      }
      if k in Keys(t) {
        var i :| 0 <= i < |t.rows| && k in Keys(t.rows[i]);
        assert SharesChunk(hf, t.rows[i], d, BitAt(t.bitmap, i));
      }
    }
  }

  // ----- One shape per set of bindings -----

  lemma {:induction false} SomeKey(t: Trie) returns (k: Key)
    requires Compact(t)
    ensures k in Keys(t)
  {
    match t
    case Leaf(k', _) => k := k';
    case Node(_, _, rows) => k := SomeKey(rows[0]);
  }

  /** A table below the root holds at least two keys. */
  lemma {:induction false} TwoKeys(hf: HashFn, t: Trie, d: nat) returns (k: Key, k': Key)
    requires t.Node? && WellFormed(hf, t, d) && Compact(t)
    ensures k != k' && k in Keys(t) && k' in Keys(t)
    decreases t
  {
    if |t.rows| == 1 {
      k, k' := TwoKeys(hf, t.rows[0], d + 1);
    } else {
      k := SomeKey(t.rows[0]);
      k' := SomeKey(t.rows[1]);
      assert SharesChunk(hf, t.rows[0], d, BitAt(t.bitmap, 0));
      assert SharesChunk(hf, t.rows[1], d, BitAt(t.bitmap, 1));
      assert Rank(t.bitmap, BitAt(t.bitmap, 0)) != Rank(t.bitmap, BitAt(t.bitmap, 1));
    }
  }

  ghost predicate SameBindings(hf: HashFn, t: Trie, u: Trie, d: nat) {
    forall k :: Alike(hf, t, u, k, d)
  }

  predicate Alike(hf: HashFn, t: Trie, u: Trie, k: Key, d: nat) {
    Find(hf, t, k, d) == Find(hf, u, k, d)
  }

  /** A table below the root cannot stand for the same bindings as a single value. */
  lemma TableIsNotValue(hf: HashFn, t: Trie, u: Trie, d: nat)
    requires WellFormed(hf, t, d) && Compact(t) && t.Node? && u.Leaf?
    ensures !SameBindings(hf, t, u, d) && !SameBindings(hf, u, t, d)
  {
    var k, k' := TwoKeys(hf, t, d);
    FindIffKey(hf, t, k, d);
    FindIffKey(hf, t, k', d);
    assert !Alike(hf, t, u, k, d) || !Alike(hf, t, u, k', d);
    assert !Alike(hf, u, t, k, d) || !Alike(hf, u, t, k', d);
  }

  /** Equal bindings force equal shapes: same bitmaps, same rows, same order. */
  lemma {:induction false} OneShape(hf: HashFn, t: Trie, u: Trie, d: nat)
    requires WellFormed(hf, t, d) && WellFormed(hf, u, d) && Compact(t) && Compact(u)
    requires SameBindings(hf, t, u, d)
    ensures Shape(t) == Shape(u)
    decreases t
  {
    if t.Node? && u.Node? {
      OneShapeNodes(hf, t, u, d);
    } else if t.Node? {
      TableIsNotValue(hf, t, u, d);
    } else if u.Node? {
      TableIsNotValue(hf, u, t, d);
    } else {
      assert Alike(hf, t, u, t.key, d);
    }
  }

  lemma {:induction false} OneShapeNodes(hf: HashFn, t: Trie, u: Trie, d: nat)
    requires t.Node? && u.Node? && WellFormed(hf, t, d) && WellFormed(hf, u, d)
    requires CompactRoot(t) && CompactRoot(u)
    requires SameBindings(hf, t, u, d)
    ensures Shape(t) == Shape(u)
    decreases t, 0
  {
    SameBitmaps(hf, t, u, d);
    hide WellFormed;
    forall i | 0 <= i < |t.rows|
      ensures Shape(t.rows[i]) == Shape(u.rows[i])
    {
      SameRow(hf, t, u, d, i);
      OneShape(hf, t.rows[i], u.rows[i], d + 1);
    }
    assert Shape(t).rows == Shape(u).rows;
  }

  lemma SameBitmaps(hf: HashFn, t: Trie, u: Trie, d: nat)
    requires t.Node? && u.Node? && WellFormed(hf, t, d) && WellFormed(hf, u, d)
    requires CompactRoot(t) && CompactRoot(u) && SameBindings(hf, t, u, d)
    ensures t.bitmap == u.bitmap && |t.rows| == |u.rows|
  {
    forall c: nat
      ensures Has(t.bitmap, c) <==> Has(u.bitmap, c)
    {
      if Has(t.bitmap, c) {
        BitMeansKey(hf, t, u, d, c);
      }
      if Has(u.bitmap, c) {
        assert SameBindings(hf, u, t, d) by {
          forall k
            ensures Alike(hf, u, t, k, d)
          {
            assert Alike(hf, t, u, k, d);
          }
        }
        BitMeansKey(hf, u, t, d, c);
      }
    }
    SameBits(t.bitmap, u.bitmap);
  }

  /** A set bit has a key below it, so the other trie has the bit too. */
  lemma BitMeansKey(hf: HashFn, t: Trie, u: Trie, d: nat, c: nat)
    requires t.Node? && u.Node? && WellFormed(hf, t, d) && WellFormed(hf, u, d) && CompactRoot(t)
    requires SameBindings(hf, t, u, d) && Has(t.bitmap, c)
    ensures Has(u.bitmap, c)
  {
    BitAtRank(t.bitmap, c);
    var row := t.rows[Rank(t.bitmap, c)];
    var k := SomeKey(row);
    assert SharesChunk(hf, row, d, c);
    FindIffKey(hf, t, k, d);
    assert Alike(hf, t, u, k, d);
  }

  lemma SameRow(hf: HashFn, t: Trie, u: Trie, d: nat, i: nat)
    requires t.Node? && u.Node? && WellFormed(hf, t, d) && WellFormed(hf, u, d)
    requires t.bitmap == u.bitmap && i < |t.rows| == |u.rows|
    requires SameBindings(hf, t, u, d)
    ensures WellFormed(hf, t.rows[i], d + 1) && WellFormed(hf, u.rows[i], d + 1)
    ensures SameBindings(hf, t.rows[i], u.rows[i], d + 1)
  {
    var c, e := BitAt(t.bitmap, i), d + 1;
    forall k
      ensures Alike(hf, t.rows[i], u.rows[i], k, e)
    {
      assert Alike(hf, t, u, k, d);
      if ChunkOf(hf, k, d) != c {
        FindIffKey(hf, t.rows[i], k, d + 1);
        FindIffKey(hf, u.rows[i], k, d + 1);
        assert SharesChunk(hf, t.rows[i], d, c) && SharesChunk(hf, u.rows[i], d, c);
      }
    }
  }

  // ----- Shape decides everything above -----

  lemma {:induction false} ShapeKeeps(hf: HashFn, t: Trie, u: Trie, d: nat)
    requires Shape(t) == Shape(u)
    ensures Keys(t) == Keys(u) && (WellFormed(hf, t, d) <==> WellFormed(hf, u, d))
    ensures (Compact(t) <==> Compact(u)) && (t.Node? <==> u.Node?)
    ensures SameBindings(hf, t, u, d)
    decreases t
  {
    if t.Node? {
      assert |t.rows| == |u.rows| && t.bitmap == u.bitmap;
      forall i | 0 <= i < |t.rows|
        ensures Shape(t.rows[i]) == Shape(u.rows[i])
      {
        assert Shape(t).rows[i] == Shape(u).rows[i];
      }
      forall i | 0 <= i < |t.rows|
        ensures Keys(t.rows[i]) == Keys(u.rows[i])
        ensures WellFormed(hf, t.rows[i], d + 1) <==> WellFormed(hf, u.rows[i], d + 1)
        ensures Compact(t.rows[i]) <==> Compact(u.rows[i])
        ensures t.rows[i].Node? <==> u.rows[i].Node?
        ensures SameBindings(hf, t.rows[i], u.rows[i], d + 1)
      {
        ShapeKeeps(hf, t.rows[i], u.rows[i], d + 1);
      }
      forall k
        ensures Alike(hf, t, u, k, d)
      {
        var r := Rank(t.bitmap, ChunkOf(hf, k, d));
        if r < |t.rows| {
          assert SameBindings(hf, t.rows[r], u.rows[r], d + 1);
          assert Alike(hf, t.rows[r], u.rows[r], k, d + 1);
        }
      }
    }
  }
}
