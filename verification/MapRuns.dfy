/** Sequences of map operations and the finite map they lead to. */
module MapRuns {
  import opened HashTrie
  import opened TrieUpdate

  datatype Op = SetOp(key: Key, value: nat) | RemoveOp(key: Key)

  function Applied(op: Op, m: map<Key, nat>): map<Key, nat> {
    match op
    case SetOp(k, v) => m[k := v]
    case RemoveOp(k) => m - {k}
  }

  /** What the operations, first to last, make of a finite map. */
  function Meaning(ops: seq<Op>, m: map<Key, nat>): map<Key, nat> {
    if ops == [] then m else Applied(ops[|ops| - 1], Meaning(ops[..|ops| - 1], m))
  }

  /** A key no operation is about is bound as before. */
  lemma {:induction false} Untouched(ops: seq<Op>, m: map<Key, nat>, k: Key)
    requires forall i | 0 <= i < |ops| :: ops[i].key != k
    ensures k in Meaning(ops, m) <==> k in m
    ensures k in m ==> Meaning(ops, m)[k] == m[k]
  {
    if ops != [] {
      Untouched(ops[..|ops| - 1], m, k);
    }
  }

  /** The last operation on a key decides what it is bound to. */
  lemma {:induction false} LastDecides(ops: seq<Op>, m: map<Key, nat>, i: nat)
    requires i < |ops| && forall j | i < j < |ops| :: ops[j].key != ops[i].key
    ensures ops[i].key in Meaning(ops, m) <==> ops[i].SetOp?
    ensures ops[i].SetOp? ==> Meaning(ops, m)[ops[i].key] == ops[i].value
  {
    if i < |ops| - 1 {
      LastDecides(ops[..|ops| - 1], m, i);
    }
  }

  function AllKeys(ops: seq<Op>): set<Key> {
    set i | 0 <= i < |ops| :: ops[i].key
  }

  lemma {:induction false} MeaningKeys(ops: seq<Op>, m: map<Key, nat>)
    ensures Meaning(ops, m).Keys <= m.Keys + AllKeys(ops)
  {
    if ops != [] {
      var n := |ops| - 1;
      MeaningKeys(ops[..n], m);
      assert forall i | 0 <= i < n :: ops[..n][i].key in AllKeys(ops);
      assert ops[n].key in AllKeys(ops);
    }
  }

  lemma DistinctPart(hf: HashFn, keys: set<Key>, part: set<Key>)
    requires Distinct(hf, keys) && part <= keys
    ensures Distinct(hf, part)
  {
  }

  lemma MeaningOn(ops: seq<Op>, m: map<Key, nat>, i: nat)
    requires i < |ops|
    ensures Meaning(ops[..i + 1], m) == Applied(ops[i], Meaning(ops[..i], m))
  {
    assert ops[..i + 1][..i] == ops[..i];
  }

  lemma NextKeyDistinct(hf: HashFn, ops: seq<Op>, m: map<Key, nat>, i: nat)
    requires Distinct(hf, m.Keys + AllKeys(ops)) && i < |ops|
    ensures Distinct(hf, Meaning(ops[..i], m).Keys + {ops[i].key})
  {
    MeaningKeys(ops[..i], m);
    assert forall j | 0 <= j < i :: ops[..i][j].key in AllKeys(ops);
    assert ops[i].key in AllKeys(ops);
    DistinctPart(hf, m.Keys + AllKeys(ops), Meaning(ops[..i], m).Keys + {ops[i].key});
  }
}
