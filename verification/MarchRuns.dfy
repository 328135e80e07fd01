/** What a root of March's trie promises its clients, over single calls and whole runs. */
module MarchRuns {
  import opened Wrappers
  import opened Words
  import opened HashTrie
  import opened TrieUpdate
  import opened TrieMap
  import opened MapRuns
  import opened MarchNodes
  import opened MarchHamt

  /** The root stands for the finite map. */
  ghost predicate Stands(s: Store, hf: MarchHash, root: Ptr, m: map<Key, nat>) {
    exists t: Trie :: StandsAs(s, hf, root, m, t)
  }

  ghost predicate StandsAs(s: Store, hf: MarchHash, root: Ptr, m: map<Key, nat>, t: Trie) {
    t.Node? && t.ptr == root && Represents(s, t) && WellFormed(hf, t, 0) && BindingsOf(hf, t) == m
  }

  /** A root stands for one map. */
  lemma OneMeaning(s: Store, hf: MarchHash, root: Ptr, m: map<Key, nat>, m': map<Key, nat>)
    requires Stands(s, hf, root, m) && Stands(s, hf, root, m')
    ensures m == m'
  {
    var t :| StandsAs(s, hf, root, m, t);
    var t' :| StandsAs(s, hf, root, m', t');
    ValuesEven(hf, t, 0);
    ValuesEven(hf, t', 0);
    OneTrie(s, t, t');
  }

  /** Growth of the store takes nothing from any root. */
  lemma OldRootsStand(s: Store, s': Store, hf: MarchHash, root: Ptr, m: map<Key, nat>)
    requires Stands(s, hf, root, m) && Grows(s, s')
    ensures Stands(s', hf, root, m)
  {
    var t :| StandsAs(s, hf, root, m, t);
    StillRepresented(s, s', t);
    assert StandsAs(s', hf, root, m, t);
  }

  /** hamt_new. */
  lemma NewStands(s: Store, hf: MarchHash)
    ensures Stands(s, hf, 0, map[])
  {
    StartEmpty(hf, s, 0, 0);
    assert StandsAs(s, hf, 0, map[], EMPTY);
  }

  method HamtGet(nodes: Nodes, hf: MarchHash, root: Ptr, key: Key, ghost m: map<Key, nat>) returns (value: nat)
    requires Stands(nodes.cells, hf, root, m)
    ensures value == if key in m then m[key] else 0
  {
    hide WellFormed, Represents, Find, BindingsOf;
    ghost var t :| StandsAs(nodes.cells, hf, root, m, t);
    BindingIsFind(hf, t, key);
    value := Get(nodes, hf, root, key, t);
  }

  method HamtSet(nodes: Nodes, hf: MarchHash, root: Ptr, key: Key, value: nat, ghost m: map<Key, nat>) returns (result: Ptr)
    requires Stands(nodes.cells, hf, root, m) && Distinct(hf, m.Keys + {key})
    modifies nodes
    ensures Grows(old(nodes.cells), nodes.cells)
    ensures Stands(nodes.cells, hf, result, m[key := value - value % 2])
  {
    hide WellFormed, Represents, Find, BindingsOf, Keys, Distinct, OnWay, Updates, OnlyAdds;
    ghost var t :| StandsAs(nodes.cells, hf, root, m, t);
    BindingsAreKeys(hf, t);
    StartOnWay(hf, t, key);
    var ins;
    ghost var u;
    result, ins, u := SetImpl(nodes, hf, root, key, value, hf.code(key, 0), 0, false, t);
    UpdateIsUpdate(hf, t, u, key, Some(UntagValue(value)));
    assert StandsAs(nodes.cells, hf, result, m[key := UntagValue(value)], u);
  }

  lemma StartOnWay(hf: MarchHash, t: Trie, k: Key)
    ensures OnWay(hf, t, k, 0)
  {
  }

  /** hamt_remove. For an absent key the root comes back as it was, and nothing is made. */
  method HamtRemove(nodes: Nodes, hf: MarchHash, root: Ptr, key: Key, ghost m: map<Key, nat>) returns (result: Ptr)
    requires Stands(nodes.cells, hf, root, m)
    modifies nodes
    ensures Grows(old(nodes.cells), nodes.cells)
    ensures Stands(nodes.cells, hf, result, m - {key})
    ensures key !in m ==> result == root && nodes.cells == old(nodes.cells)
  {
    hide WellFormed, Represents, Find, BindingsOf, Keys, Updates, OnlyAdds;
    ghost var t :| StandsAs(nodes.cells, hf, root, m, t);
    BindingIsFind(hf, t, key);
    var removed;
    ghost var u;
    result, removed, u := RemoveImpl(nodes, hf, root, key, hf.code(key, 0), 0, t);
    UpdateIsUpdate(hf, t, u, key, None);
    assert StandsAs(nodes.cells, hf, result, m - {key}, u);
  }

  /** The node lies so many slots below the root, none of them a leaf's. */
  ghost predicate LeadsTo(s: Store, root: Ptr, slots: seq<nat>, p: Ptr)
    decreases slots
  {
    if slots == [] then
      p == root
    else
      root in s && slots[0] < |s[root].slots| &&
      s[root].slots[slots[0]].value % 2 == 0 && LeadsTo(s, s[root].slots[slots[0]].value, slots[1..], p)
  }

  lemma {:induction false} CountBelow(s: Store, hf: MarchHash, t: Trie, d: nat, slots: seq<nat>, p: Ptr) returns (u: Trie)
    requires t.Node? && t.rows != [] && Represents(s, t) && WellFormed(hf, t, d) && LeadsTo(s, t.ptr, slots, p)
    ensures u.Node? && u.rows != [] && u.ptr == p && Represents(s, u) && Keys(u) <= Keys(t)
    ensures p in s && s[p].count == |Keys(u)| % 0x1_0000_0000
    decreases slots
  {
    hide WellFormed;
    CellFacts(hf, s, t, d);
    if slots == [] {
      u := t;
      LeavesCounted(hf, t, d);
    } else {
      var x := t.rows[slots[0]];
      assert s[t.ptr].slots[slots[0]] == SlotOf(x, s[t.ptr].slots[slots[0]].key);
      u := CountBelow(s, hf, x, d + 1, slots[1..], p);
    }
  }

  /** Every node that a root leads to counts the bindings below it, while they fit 32 bits. */
  lemma EveryCount(s: Store, hf: MarchHash, root: Ptr, m: map<Key, nat>, slots: seq<nat>, p: Ptr)
    requires Stands(s, hf, root, m) && root != 0 && LeadsTo(s, root, slots, p)
    ensures p in s && exists u: Trie ::
      && u.Node? && u.ptr == p && Represents(s, u) && Keys(u) <= m.Keys
      && s[p].count == |Keys(u)| % 0x1_0000_0000 && (|Keys(u)| < 0x1_0000_0000 ==> s[p].count == |Keys(u)|)
  {
    hide WellFormed, Represents, BindingsOf, Keys, LeadsTo;
    var t :| StandsAs(s, hf, root, m, t);
    CellFacts(hf, s, t, 0);
    BindingsAreKeys(hf, t);
    var u := CountBelow(s, hf, t, 0, slots, p);
  }

  /** hamt_size: the cached count of the root is the map's cardinality, in 32 bits. */
  method HamtSize(nodes: Nodes, hf: MarchHash, root: Ptr, ghost m: map<Key, nat>) returns (size: nat)
    requires Stands(nodes.cells, hf, root, m)
    ensures size == |m| % 0x1_0000_0000
    ensures |m| < 0x1_0000_0000 ==> size == |m|
  {
    hide WellFormed, Represents, BindingsOf;
    ghost var t :| StandsAs(nodes.cells, hf, root, m, t);
    CellFacts(hf, nodes.cells, t, 0);
    LeavesCounted(hf, t, 0);
    BindingsAreKeys(hf, t);
    assert |m| == |m.Keys|;
    if root == 0 {
      return 0;
    }
    size := nodes.cells[root].count;
  }

  lemma Pow2At65()
    ensures Pow2(65) == 0x2_0000_0000_0000_0000
  {
    Pow2At30();
    Pow2Five(30);
    Pow2Five(35);
    Pow2Five(40);
    Pow2Five(45);
    Pow2Five(50);
    Pow2Five(55);
    Pow2Five(60);
  }

  lemma WholeHashUsed(hash: Key -> U64, k: Key)
    ensures UsedBits(Hashing(hash), k) == hash(k)
  {
    Pow2At65();
    assert 5 * LEVELS == 65;
  }

  /** Distinct 64-bit hashes are all that keys need: thirteen levels tell them apart. */
  lemma DistinctHashes(hash: Key -> U64, keys: set<Key>)
    requires forall k, k' | k in keys && k' in keys && hash(k) == hash(k') :: k == k'
    ensures Distinct(Hashing(hash), keys)
  {
    hide UsedBits, Hashing;
    forall k, k' | k in keys && k' in keys && k != k'
      ensures !SameHash(Hashing(hash), k, k')
    {
      WholeHashUsed(hash, k);
      WholeHashUsed(hash, k');
    }
  }

  /** The value a slot can hold. */
  function Stored(op: Op): Op {
    if op.SetOp? then SetOp(op.key, op.value - op.value % 2) else op
  }

  function AllStored(ops: seq<Op>): seq<Op> {
    seq(|ops|, i requires 0 <= i < |ops| => Stored(ops[i]))
  }

  /** A run of sets and removes: after it, every root ever returned stands for what the
      operations up to it mean. */
  method RunVersions(nodes: Nodes, hf: MarchHash, root: Ptr, ops: seq<Op>, ghost m: map<Key, nat>) returns (roots: seq<Ptr>)
    requires Stands(nodes.cells, hf, root, m) && Distinct(hf, m.Keys + AllKeys(AllStored(ops)))
    modifies nodes
    ensures Grows(old(nodes.cells), nodes.cells)
    ensures |roots| == |ops| + 1 && roots[0] == root
    ensures forall i | 0 <= i <= |ops| :: Stands(nodes.cells, hf, roots[i], Meaning(AllStored(ops)[..i], m))
  {
    hide Stands, Distinct;
    ghost var stored := AllStored(ops);
    roots := [root];
    for i := 0 to |ops|
      invariant |roots| == i + 1 && roots[0] == root
      invariant Grows(old(nodes.cells), nodes.cells)
      invariant forall j | 0 <= j <= i :: Stands(nodes.cells, hf, roots[j], Meaning(stored[..j], m))
    {
      NextKeyDistinct(hf, stored, m, i);
      MeaningOn(stored, m, i);
      ghost var now, s := Meaning(stored[..i], m), nodes.cells;
      var next;
      match ops[i] {
        case SetOp(k, v) =>
          next := HamtSet(nodes, hf, roots[i], k, v, now);
        case RemoveOp(k) =>
          next := HamtRemove(nodes, hf, roots[i], k, now);
      }
      forall j | 0 <= j <= i
        ensures Stands(nodes.cells, hf, roots[j], Meaning(stored[..j], m))
      {
        OldRootsStand(s, nodes.cells, hf, roots[j], Meaning(stored[..j], m));
      }
      roots := roots + [next];
    }
  }
}
