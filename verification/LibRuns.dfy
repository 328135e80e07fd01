/** Whole runs of libhamt operations: in place, and with every version kept. */
module LibRuns {
  import opened Words
  import opened Bitmap
  import opened HashTrie
  import opened TrieUpdate
  import opened TrieMap
  import opened MapRuns
  import opened LibHeap
  import opened LibMemory
  import opened LibSet
  import opened LibHamt

  /** Values with two clear low bits, and keys told apart by 30 bits of hash. */
  ghost predicate Proper(hf: LibHash, ops: seq<Op>, m: map<Key, nat>) {
    && Distinct(hf, m.Keys + AllKeys(ops))
    && forall i | 0 <= i < |ops| :: ops[i].SetOp? ==> ops[i].value % 4 == 0
  }

  // ----- Removed, but never there -----

  /** A bound key that starts out the way of k. */
  predicate StartsLike(hf: LibHash, m: map<Key, nat>, k: Key, a: Key) {
    a in m && ChunkOf(hf, a, 0) == ChunkOf(hf, k, 0)
  }

  /** The key is absent, and two keys that are bound start out the way it would go. */
  ghost predicate Phantom(hf: LibHash, m: map<Key, nat>, k: Key) {
    k !in m && exists a, b :: a != b && StartsLike(hf, m, k, a) && StartsLike(hf, m, k, b)
  }

  /** Exactly such a key is counted as removed. */
  lemma CountsAbsentIff(hf: LibHash, t: Trie, k: Key)
    requires t.Node? && WellFormed(hf, t, 0) && CompactRoot(t)
    ensures CountsAbsent(hf, t, k) <==> Phantom(hf, BindingsOf(hf, t), k)
  {
    hide Has, Popcount, BindingsOf;
    BindingIsFind(hf, t, k);
    var c, r := ChunkOf(hf, k, 0), RowFor(hf, t, k, 0);
    if CountsAbsent(hf, t, k) {
      BitAtRank(t.bitmap, c);
      var a, b := TwoKeys(hf, t.rows[r], 1);
      assert SharesChunk(hf, t.rows[r], 0, c) && a in Keys(t) && b in Keys(t);
      BindingsAreKeys(hf, t);
      assert StartsLike(hf, BindingsOf(hf, t), k, a) && StartsLike(hf, BindingsOf(hf, t), k, b);
    }
    if Phantom(hf, BindingsOf(hf, t), k) {
      var a, b :| a != b && StartsLike(hf, BindingsOf(hf, t), k, a) && StartsLike(hf, BindingsOf(hf, t), k, b);
      BindingIsFind(hf, t, a);
      BindingIsFind(hf, t, b);
    }
  }

  /** How many removes of a run are of such keys. */
  ghost function Phantoms(hf: LibHash, ops: seq<Op>, m: map<Key, nat>): nat {
    if ops == [] then 0
    else
      var n := |ops| - 1;
      Phantoms(hf, ops[..n], m) + if ops[n].RemoveOp? && Phantom(hf, Meaning(ops[..n], m), ops[n].key) then 1 else 0
  }

  lemma PhantomsOn(hf: LibHash, ops: seq<Op>, m: map<Key, nat>, i: nat)
    requires i < |ops|
    ensures Phantoms(hf, ops[..i + 1], m) ==
      Phantoms(hf, ops[..i], m) + if ops[i].RemoveOp? && Phantom(hf, Meaning(ops[..i], m), ops[i].key) then 1 else 0
  {
    assert ops[..i + 1][..i] == ops[..i];
  }

  /** A run that removes only what is there meets none. */
  lemma {:induction false} PresentOnly(hf: LibHash, ops: seq<Op>, m: map<Key, nat>)
    requires forall i | 0 <= i < |ops| :: ops[i].RemoveOp? ==> ops[i].key in Meaning(ops[..i], m)
    ensures Phantoms(hf, ops, m) == 0
  {
    if ops != [] {
      var n := |ops| - 1;
      forall i | 0 <= i < n
        ensures ops[..n][i].RemoveOp? ==> ops[..n][i].key in Meaning(ops[..n][..i], m)
      {
        assert ops[..n][..i] == ops[..i];
      }
      PresentOnly(hf, ops[..n], m);
    }
  }

  // ----- Runs -----

  /** A run in place ends in the map its operations mean, and has counted as removed exactly
      the phantoms among them. */
  method Run(h: Hamt, ops: seq<Op>)
    requires h.Valid() && Proper(h.hf, ops, h.Bindings())
    modifies h, h.mem
    ensures h.Valid() && h.Bindings() == Meaning(ops, old(h.Bindings()))
    ensures h.phantoms == old(h.phantoms) + Phantoms(h.hf, ops, old(h.Bindings()))
  {
    ghost var m := h.Bindings();
    for i := 0 to |ops|
      invariant h.Valid() && h.Bindings() == Meaning(ops[..i], m)
      invariant h.phantoms == old(h.phantoms) + Phantoms(h.hf, ops[..i], m)
    {
      hide LibHamt.Hamt.Valid, LibHamt.Hamt.Bindings, Distinct, OnlyChanges, Tables, RowOf, Shape, CountsAbsent, Phantom, Phantoms, Meaning;
      NextKeyDistinct(h.hf, ops, m, i);
      MeaningOn(ops, m, i);
      PhantomsOn(h.hf, ops, m, i);
      CountedIff(h, ops[i].key);
      match ops[i]
      case SetOp(k, v) =>
        var _ := h.Set(k, v);
      case RemoveOp(k) =>
        var _ := h.Remove(k);
    }
    assert ops[..|ops|] == ops;
  }

  lemma CountedIff(h: Hamt, k: Key)
    requires h.Valid()
    ensures h.trie.Node?
    ensures CountsAbsent(h.hf, h.trie, k) <==> Phantom(h.hf, h.Bindings(), k)
  {
    hide WellFormed, CompactRoot, Anchored, SizeIs, BindingsOf;
    CountsAbsentIff(h.hf, h.trie, k);
  }

  /** From an empty map on: the size is the number of bindings less the phantoms, and exact
      only when there are none, up to the width of size_t. */
  method RunFromEmpty(mem: Memory, hf: LibHash, ops: seq<Op>) returns (h: Hamt)
    requires Proper(hf, ops, map[])
    modifies mem
    ensures fresh(h) && h.mem == mem && h.hf == hf && h.Valid() && h.Bindings() == Meaning(ops, map[])
    ensures h.size == (|Meaning(ops, map[])| - Phantoms(hf, ops, map[])) % 0x1_0000_0000_0000_0000
    ensures h.size == |Meaning(ops, map[])| <==> Phantoms(hf, ops, map[]) % 0x1_0000_0000_0000_0000 == 0
  {
    hide Phantoms, Meaning, Distinct, LibHamt.Hamt.Valid, LibHamt.Hamt.Bindings, Spares, SizeIs;
    ghost var none: map<Key, nat> := map[];
    assert none.Keys + AllKeys(ops) == AllKeys(ops);
    h := new Hamt(mem, hf);
    Run(h, ops);
    ResultDistinct(hf, ops);
    SizeOfRun(h);
  }

  /** What the runs ask of their keys: the low 30 bits of their hashes differ. */
  lemma LowBitsDiffer(hf: LibHash, keys: set<Key>)
    ensures Distinct(hf, keys) <==>
      forall k, k' | k in keys && k' in keys && k != k' :: hf.code(k, 0) % 0x4000_0000 != hf.code(k', 0) % 0x4000_0000
  {
    Pow2At30();
    assert 5 * DEPTHS == 30;
    hide Pow2;
    assert forall k, k' | k in keys && k' in keys :: SameHash(hf, k, k') <==> hf.code(k, 0) % 0x4000_0000 == hf.code(k', 0) % 0x4000_0000;
  }

  lemma ResultDistinct(hf: LibHash, ops: seq<Op>)
    requires Proper(hf, ops, map[])
    ensures Distinct(hf, Meaning(ops, map[]).Keys)
  {
    var none: map<Key, nat> := map[];
    MeaningKeys(ops, none);
    DistinctPart(hf, none.Keys + AllKeys(ops), Meaning(ops, none).Keys);
  }

  lemma SizeOfRun(h: Hamt)
    requires h.Valid() && Distinct(h.hf, h.Bindings().Keys)
    ensures h.size == (|h.Bindings()| - h.phantoms) % 0x1_0000_0000_0000_0000
    ensures h.size == |h.Bindings()| <==> h.phantoms % 0x1_0000_0000_0000_0000 == 0
  {
    hide WellFormed, CompactRoot, Anchored, Distinct, BindingsOf;
    KeysAreFew(h.hf, h.Bindings().Keys);
    Pow2At30();
    assert |h.Bindings()| == |h.Bindings().Keys|;
    SizeArithmetic(h.size, |h.Bindings()|, h.phantoms);
  }

  lemma SizeArithmetic(size: nat, keys: nat, phantoms: nat)
    requires SizeIs(size, keys, phantoms) && keys < SIZE_MODULUS
    ensures size == (keys - phantoms) % SIZE_MODULUS
    ensures size == keys <==> phantoms % SIZE_MODULUS == 0
  {
    var q := (size + phantoms - keys) / SIZE_MODULUS;
    assert size + phantoms - keys == SIZE_MODULUS * q;
    DivUnique(keys - phantoms, SIZE_MODULUS, -q, size);
  }

  /** A map that nobody touched, in memory whose old tables were all spared. */
  twostate lemma Survives(h: Hamt)
    requires old(h.Valid()) && Spares(old(h.mem.tables), h.mem.tables, {})
    requires h.root == old(h.root) && h.size == old(h.size) && h.trie == old(h.trie) && h.phantoms == old(h.phantoms)
    ensures h.Valid() && h.Bindings() == old(h.Bindings())
  {
    hide WellFormed, CompactRoot, Anchored, SizeIs, BindingsOf, Spares;
    StillAnchored(old(h.mem.tables), h.mem.tables, h.root, h.trie);
  }

  /** All versions of a run by path copying, each with its own bindings, all at once. */
  method RunVersions(h: Hamt, ops: seq<Op>) returns (versions: seq<Hamt>)
    requires h.Valid() && Proper(h.hf, ops, h.Bindings())
    modifies h.mem
    ensures h.Valid() && |versions| == |ops| + 1 && versions[0] == h
    ensures forall i | 0 <= i <= |ops| ::
      versions[i].hf == h.hf && versions[i].mem == h.mem && versions[i].Valid() && versions[i].Bindings() == Meaning(ops[..i], h.Bindings())
    ensures forall i | 0 <= i <= |ops| :: versions[i].phantoms == h.phantoms + Phantoms(h.hf, ops[..i], h.Bindings())
    ensures Spares(old(h.mem.tables), h.mem.tables, {})
  {
    hide LibHamt.Hamt.Valid, LibHamt.Hamt.Bindings, Distinct, CountsAbsent, Phantom, Phantoms, Meaning;
    ghost var m, p := h.Bindings(), h.phantoms;
    RunStarts(h.hf, ops, m);
    versions := [h];
    for i := 0 to |ops|
      invariant |versions| == i + 1 && versions[0] == h
      invariant forall j | 0 <= j <= i :: VersionIs(h, versions[j], Meaning(ops[..j], m), p + Phantoms(h.hf, ops[..j], m))
      invariant Spares(old(h.mem.tables), h.mem.tables, {})
    {
      NextKeyDistinct(h.hf, ops, m, i);
      MeaningOn(ops, m, i);
      PhantomsOn(h.hf, ops, m, i);
      var last := versions[i];
      assert VersionIs(h, last, Meaning(ops[..i], m), p + Phantoms(h.hf, ops[..i], m));
      CountedIff(last, ops[i].key);
      label before:
      var next: Hamt;
      match ops[i] {
        case SetOp(k, v) =>
          next := last.PSet(k, v);
        case RemoveOp(k) =>
          next := last.PRemove(k);
      }
      forall j | 0 <= j <= i
        ensures VersionIs(h, versions[j], Meaning(ops[..j], m), p + Phantoms(h.hf, ops[..j], m))
      {
        Survives@before(versions[j]);
      }
      versions := versions + [next];
    }
    AllVersions(h, versions, ops, m, p);
  }

  lemma AllVersions(h: Hamt, versions: seq<Hamt>, ops: seq<Op>, m: map<Key, nat>, p: nat)
    requires |versions| == |ops| + 1
    requires forall j | 0 <= j <= |ops| :: VersionIs(h, versions[j], Meaning(ops[..j], m), p + Phantoms(h.hf, ops[..j], m))
    ensures forall i | 0 <= i <= |ops| ::
      versions[i].hf == h.hf && versions[i].mem == h.mem && versions[i].Valid() && versions[i].Bindings() == Meaning(ops[..i], m)
    ensures forall i | 0 <= i <= |ops| :: versions[i].phantoms == p + Phantoms(h.hf, ops[..i], m)
  {
    hide LibHamt.Hamt.Valid, LibHamt.Hamt.Bindings, Phantoms, Meaning;
    forall i | 0 <= i <= |ops|
      ensures VersionIs(h, versions[i], Meaning(ops[..i], m), p + Phantoms(h.hf, ops[..i], m))
    {
    }
  }

  lemma RunStarts(hf: LibHash, ops: seq<Op>, m: map<Key, nat>)
    ensures Meaning(ops[..0], m) == m && Phantoms(hf, ops[..0], m) == 0
  {
  }

  ghost predicate VersionIs(h: Hamt, v: Hamt, m: map<Key, nat>, phantoms: nat)
    reads v, h.mem
  {
    v.hf == h.hf && v.mem == h.mem && v.Valid() && v.Bindings() == m && v.phantoms == phantoms
  }

  /** History independence: whatever operations led there, equal bindings under one hash
      function mean the same bitmaps, the same rows and the same order. */
  lemma HistoryIndependent(h: Hamt, g: Hamt)
    requires h.Valid() && g.Valid() && h.hf == g.hf && h.Bindings() == g.Bindings()
    ensures Shape(h.trie) == Shape(g.trie)
    ensures h.root.table in h.mem.tables && h.root.index < |h.mem.tables[h.root.table]|
    ensures g.root.table in g.mem.tables && g.root.index < |g.mem.tables[g.root.table]|
    ensures forall way: seq<nat> ::
      var x := RowBelow(h.mem.tables, h.mem.tables[h.root.table][h.root.index], way);
      var y := RowBelow(g.mem.tables, g.mem.tables[g.root.table][g.root.index], way);
      && (x.Some? <==> y.Some?)
      && (x.Some? ==> x.value.other == y.value.other && (x.value.word % 4 == 0 <==> y.value.word % 4 == 0))
      && (x.Some? && x.value.word % 4 != 0 ==> x.value.word == y.value.word)
  {
    InMemory(h);
    InMemory(g);
    OneShapeOf(h, g);
    forall way: seq<nat>
      ensures SameRows(RowBelow(h.mem.tables, RowOf(h.trie), way), RowBelow(g.mem.tables, RowOf(g.trie), way))
    {
      ShapeInMemory(h.mem.tables, g.mem.tables, h.trie, g.trie, way);
    }
  }

  lemma InMemory(h: Hamt)
    requires h.Valid()
    ensures h.root.table in h.mem.tables && h.root.index < |h.mem.tables[h.root.table]|
    ensures h.mem.tables[h.root.table][h.root.index] == RowOf(h.trie) && Holds(h.mem.tables, h.trie)
  {
    hide WellFormed, CompactRoot, SizeIs, Holds, Separate;
  }

  lemma OneShapeOf(h: Hamt, g: Hamt)
    requires h.Valid() && g.Valid() && h.hf == g.hf && h.Bindings() == g.Bindings()
    ensures Shape(h.trie) == Shape(g.trie)
  {
    hide WellFormed, CompactRoot, Anchored, SizeIs, Find;
    forall k
      ensures Alike(h.hf, h.trie, g.trie, k, 0)
    {
      BindingIsFind(h.hf, h.trie, k);
      BindingIsFind(g.hf, g.trie, k);
    }
    OneShapeNodes(h.hf, h.trie, g.trie, 0);
  }

  // ----- An example -----

  const PlainHash: LibHash := HashFn((k, g) => k % 0x1_0000_0000, DEPTHS, 4)

  const DRIFT: seq<Op> := [SetOp(0, 4), SetOp(32, 8), RemoveOp(64)]

  /** Keys 0, 32 and 64 start out the same way. With 0 and 32 bound, removing 64 takes one
      off the size and leaves both bindings. */
  method Drift(mem: Memory) returns (h: Hamt)
    modifies mem
    ensures h.Valid() && h.Bindings() == map[0 := 4, 32 := 8] && h.size == 1
  {
    DriftProper();
    DriftMeans();
    DriftPhantoms();
    hide Meaning, Phantoms, LibHamt.Hamt.Valid, LibHamt.Hamt.Bindings;
    h := RunFromEmpty(mem, PlainHash, DRIFT);
    assert |map[0 := 4, 32 := 8]| == 2;
  }

  lemma DriftProper()
    ensures Proper(PlainHash, DRIFT, map[])
  {
    var none: map<Key, nat> := map[];
    FewKeys(none.Keys + AllKeys(DRIFT));
  }

  lemma DriftMeans()
    ensures Meaning(DRIFT[..0], map[]) == map[] && Meaning(DRIFT[..1], map[]) == map[0 := 4]
    ensures Meaning(DRIFT[..2], map[]) == map[0 := 4, 32 := 8] && Meaning(DRIFT, map[]) == map[0 := 4, 32 := 8]
  {
    MeaningOn(DRIFT, map[], 0);
    MeaningOn(DRIFT, map[], 1);
    MeaningOn(DRIFT, map[], 2);
    assert DRIFT[..3] == DRIFT;
  }

  lemma DriftPhantoms()
    ensures Phantoms(PlainHash, DRIFT, map[]) == 1
  {
    hide ChunkOf, Meaning;
    PlainChunk(0);
    PlainChunk(32);
    PlainChunk(64);
    DriftMeans();
    var m: map<Key, nat> := map[0 := 4, 32 := 8];
    assert StartsLike(PlainHash, m, 64, 0) && StartsLike(PlainHash, m, 64, 32);
    PhantomsOn(PlainHash, DRIFT, map[], 0);
    PhantomsOn(PlainHash, DRIFT, map[], 1);
    PhantomsOn(PlainHash, DRIFT, map[], 2);
    assert DRIFT[..3] == DRIFT;
  }

  lemma PlainChunk(k: Key)
    requires k < 0x1_0000_0000
    ensures ChunkOf(PlainHash, k, 0) == k % 32
  {
  }

  lemma FewKeys(keys: set<Key>)
    requires keys <= {0, 32, 64}
    ensures Distinct(PlainHash, keys)
  {
    forall k | k in keys
      ensures UsedBits(PlainHash, k) == k
    {
      PlainBits(k);
    }
  }

  lemma PlainBits(k: Key)
    requires k < 0x4000_0000
    ensures UsedBits(PlainHash, k) == k
  {
    Pow2At30();
  }
}
