/** The finite map a trie stands for, and its bindings in row order. */
module TrieMap {
  import opened Wrappers
  import opened Bitmap
  import opened HashTrie
  import opened TrieUpdate

  function BindingsOf(hf: HashFn, t: Trie): map<Key, nat> {
    map k | k in Keys(t) && Find(hf, t, k, 0).Some? :: Find(hf, t, k, 0).value
  }

  function Bound(m: map<Key, nat>, k: Key, v: Option<nat>): map<Key, nat> {
    if v.Some? then m[k := v.value] else m - {k}
  }

  lemma UpdateIsUpdate(hf: HashFn, t: Trie, u: Trie, k: Key, v: Option<nat>)
    requires WellFormed(hf, t, 0) && WellFormed(hf, u, 0) && Updates(hf, t, u, k, v, 0)
    ensures BindingsOf(hf, u) == Bound(BindingsOf(hf, t), k, v)
  {
    hide WellFormed, Find;
    forall k'
      ensures k' in BindingsOf(hf, u) <==> k' in Bound(BindingsOf(hf, t), k, v)
      ensures k' in BindingsOf(hf, u) ==> BindingsOf(hf, u)[k'] == Bound(BindingsOf(hf, t), k, v)[k']
    {
      assert UpdatesAt(hf, t, u, k, v, k', 0);
      FindIffKey(hf, t, k', 0);
      FindIffKey(hf, u, k', 0);
    }
  }

  lemma BindingsAreKeys(hf: HashFn, t: Trie)
    requires WellFormed(hf, t, 0)
    ensures BindingsOf(hf, t).Keys == Keys(t)
  {
    forall k
      ensures k in BindingsOf(hf, t) <==> k in Keys(t)
    {
      FindIffKey(hf, t, k, 0);
    }
  }

  lemma BindingIsFind(hf: HashFn, t: Trie, k: Key)
    requires WellFormed(hf, t, 0)
    ensures k in BindingsOf(hf, t) <==> Find(hf, t, k, 0).Some?
    ensures k in BindingsOf(hf, t) ==> BindingsOf(hf, t)[k] == Find(hf, t, k, 0).value
  {
    FindIffKey(hf, t, k, 0);
  }

  lemma MapAdds(m: map<Key, nat>, k: Key, v: nat)
    ensures |m[k := v]| == if k in m then |m| else |m| + 1
  {
    assert m[k := v].Keys == m.Keys + {k};
    assert |m[k := v]| == |m[k := v].Keys| && |m| == |m.Keys|;
  }

  lemma MapDrops(m: map<Key, nat>, k: Key)
    requires k in m
    ensures |m - {k}| == |m| - 1
  {
    assert (m - {k}).Keys == m.Keys - {k};
    assert |m - {k}| == |(m - {k}).Keys| && |m| == |m.Keys|;
  }

  // ----- The bindings, row by row -----

  datatype Binding = Binding(key: Key, value: nat)

  /** All bindings, row by row. */
  function Leaves(t: Trie): seq<Binding> {
    match t
    case Leaf(k, v) => [Binding(k, v)]
    case Node(_, _, rows) => LeavesOf(rows)
  }

  function LeavesOf(rows: seq<Trie>): seq<Binding> {
    if rows == [] then [] else Leaves(rows[0]) + LeavesOf(rows[1..])
  }

  lemma {:induction false} InRows(rows: seq<Trie>, b: Binding)
    ensures b in LeavesOf(rows) <==> exists i :: 0 <= i < |rows| && b in Leaves(rows[i])
  {
    if rows != [] {
      InRows(rows[1..], b);
      forall i | 0 <= i < |rows| && b in Leaves(rows[i])
        ensures b in LeavesOf(rows)
      {
        if i > 0 {
          assert rows[1..][i - 1] == rows[i];
        }
      }
      if b in LeavesOf(rows[1..]) {
        var i :| 0 <= i < |rows[1..]| && b in Leaves(rows[1..][i]);
        assert b in Leaves(rows[i + 1]);
      }
    }
  }

  lemma KeyInRow(hf: HashFn, t: Trie, k: Key, d: nat, i: nat)
    requires t.Node? && WellFormed(hf, t, d) && i < |t.rows|
    ensures WellFormed(hf, t.rows[i], d + 1)
    ensures k in Keys(t.rows[i]) ==> Has(t.bitmap, ChunkOf(hf, k, d)) && i == Rank(t.bitmap, ChunkOf(hf, k, d))
  {
    assert SharesChunk(hf, t.rows[i], d, BitAt(t.bitmap, i));
  }

  /** The walk meets exactly the bindings. */
  lemma {:induction false} LeafIffFound(hf: HashFn, t: Trie, b: Binding, d: nat)
    requires WellFormed(hf, t, d)
    ensures b in Leaves(t) <==> Find(hf, t, b.key, d) == Some(b.value)
    decreases t
  {
    if t.Node? {
      hide Has, Popcount, WellFormed, Keys, ChunkOf;
      var c, e := ChunkOf(hf, b.key, d), d + 1;
      InRows(t.rows, b);
      forall i | 0 <= i < |t.rows|
        ensures b in Leaves(t.rows[i]) <==> Find(hf, t.rows[i], b.key, e) == Some(b.value)
        ensures b in Leaves(t.rows[i]) ==> Has(t.bitmap, c) && i == Rank(t.bitmap, c)
      {
        KeyInRow(hf, t, b.key, d, i);
        LeafIffFound(hf, t.rows[i], b, e);
        FindIffKey(hf, t.rows[i], b.key, e);
      }
    }
  }

  ghost predicate NoKeyTwice(bs: seq<Binding>) {
    forall i, j | 0 <= i < j < |bs| :: bs[i].key != bs[j].key
  }

  lemma {:induction false} LeavesOnce(hf: HashFn, t: Trie, d: nat)
    requires WellFormed(hf, t, d)
    ensures NoKeyTwice(Leaves(t))
    decreases t, if t.Node? then |t.rows| + 1 else 0
  {
    if t.Node? {
      RowsOnce(hf, t, d, 0);
      assert t.rows[0..] == t.rows;
    }
  }

  lemma {:induction false} RowsOnce(hf: HashFn, t: Trie, d: nat, i: nat)
    requires t.Node? && WellFormed(hf, t, d) && i <= |t.rows|
    ensures NoKeyTwice(LeavesOf(t.rows[i..]))
    decreases t, |t.rows| - i
  {
    if i < |t.rows| {
      var rest := t.rows[i + 1..];
      assert t.rows[i..][1..] == rest;
      LeavesOnce(hf, t.rows[i], d + 1);
      RowsOnce(hf, t, d, i + 1);
      forall b, b' | b in Leaves(t.rows[i]) && b' in LeavesOf(rest)
        ensures b.key != b'.key
      {
        InRows(rest, b');
        var j :| 0 <= j < |rest| && b' in Leaves(rest[j]);
        RowsPart(hf, t, d, b, b', i, i + 1 + j);
      }
      OnceTogether(Leaves(t.rows[i]), LeavesOf(rest));
    }
  }

  lemma RowsPart(hf: HashFn, t: Trie, d: nat, b: Binding, b': Binding, i: nat, j: nat)
    requires t.Node? && WellFormed(hf, t, d) && i < j < |t.rows| && b in Leaves(t.rows[i]) && b' in Leaves(t.rows[j])
    ensures b.key != b'.key
  {
    LeafIffFound(hf, t.rows[i], b, d + 1);
    LeafIffFound(hf, t.rows[j], b', d + 1);
    FindIffKey(hf, t.rows[i], b.key, d + 1);
    FindIffKey(hf, t.rows[j], b'.key, d + 1);
    assert SharesChunk(hf, t.rows[i], d, BitAt(t.bitmap, i));
    assert SharesChunk(hf, t.rows[j], d, BitAt(t.bitmap, j));
  }

  lemma OnceTogether(bs: seq<Binding>, cs: seq<Binding>)
    requires NoKeyTwice(bs) && NoKeyTwice(cs)
    requires forall b, c | b in bs && c in cs :: b.key != c.key
    ensures NoKeyTwice(bs + cs)
  {
  }

  // ----- Counting -----

  lemma {:induction false} CountOnce(bs: seq<Binding>)
    requires NoKeyTwice(bs)
    ensures |set b | b in bs :: b.key| == |bs|
  {
    if bs != [] {
      var n := |bs| - 1;
      var keys := set b | b in bs[..n] :: b.key;
      CountOnce(bs[..n]);
      assert bs == bs[..n] + [bs[n]];
      assert (set b | b in bs :: b.key) == keys + {bs[n].key};
      assert bs[n].key !in keys;
    }
  }

  lemma LeavesCounted(hf: HashFn, t: Trie, d: nat)
    requires WellFormed(hf, t, d)
    ensures |Leaves(t)| == |Keys(t)|
  {
    hide WellFormed, Find, Keys;
    LeavesOnce(hf, t, d);
    CountOnce(Leaves(t));
    forall k
      ensures k in Keys(t) <==> k in set b | b in Leaves(t) :: b.key
    {
      FindIffKey(hf, t, k, d);
      if k in Keys(t) {
        LeafIffFound(hf, t, Binding(k, Find(hf, t, k, d).value), d);
      } else if b :| b in Leaves(t) && b.key == k {
        LeafIffFound(hf, t, b, d);
      }
    }
    assert Keys(t) == set b | b in Leaves(t) :: b.key;
  }

  /** How an update changes the number of bindings below a node. */
  lemma CountAfter(hf: HashFn, t: Trie, u: Trie, k: Key, v: Option<nat>, d: nat)
    requires WellFormed(hf, t, d) && WellFormed(hf, u, d) && Updates(hf, t, u, k, v, d)
    ensures v.Some? ==> |Leaves(u)| == |Leaves(t)| + if Find(hf, t, k, d).Some? then 0 else 1
    ensures v.None? ==> |Leaves(u)| == |Leaves(t)| - if Find(hf, t, k, d).Some? then 1 else 0
  {
    hide WellFormed, Find, Keys;
    LeavesCounted(hf, t, d);
    LeavesCounted(hf, u, d);
    forall k'
      ensures k' in Keys(u) <==> if k' == k then v.Some? else k' in Keys(t)
    {
      assert UpdatesAt(hf, t, u, k, v, k', d);
      FindIffKey(hf, t, k', d);
      FindIffKey(hf, u, k', d);
    }
    FindIffKey(hf, t, k, d);
    if v.Some? {
      assert Keys(u) == Keys(t) + {k};
    } else {
      assert Keys(u) == Keys(t) - {k};
    }
  }
}
