/** Type signatures and what it means for a stack of types to match one, for the overload
    scorer (src/dictionary.c:133-179) and for the typing step (src/compiler.c:511-579). */
module Signatures {
  type TypeId = t: nat | t < 37

  const TYPE_UNKNOWN: TypeId := 0
  const TYPE_I64: TypeId := 1
  const TYPE_U64: TypeId := 2
  const TYPE_STR: TypeId := 6
  const TYPE_STR_MUT: TypeId := 7
  const TYPE_ARRAY: TypeId := 8
  const TYPE_ARRAY_MUT: TypeId := 9
  const TYPE_ANY: TypeId := 10
  const TYPE_VAR_A: TypeId := 11

  datatype Signature = Signature(inputs: seq<TypeId>, outputs: seq<TypeId>)

  predicate IsVar(t: TypeId) {
    TYPE_VAR_A <= t
  }

  /** The types under a signature's inputs: the top of the stack. */
  function Top(stack: seq<TypeId>, n: nat): seq<TypeId>
    requires n <= |stack|
  {
    stack[|stack| - n..]
  }

  // ----- Scoring -----

  predicate Scorable(expected: TypeId, actual: TypeId) {
    IsVar(expected) || expected == TYPE_ANY || actual == expected || actual == TYPE_UNKNOWN
  }

  function Points(expected: TypeId, actual: TypeId): nat {
    if IsVar(expected) then 80
    else if expected == TYPE_ANY then 10
    else if actual == expected then 100
    else 50
  }

  /** Two occurrences of one variable. */
  predicate SameVar(inputs: seq<TypeId>, i: nat, j: nat)
    requires i < |inputs| && j < |inputs|
  {
    IsVar(inputs[i]) && inputs[i] == inputs[j]
  }

  /** Read upwards, a variable's types are unknown up to a point and one type from there. */
  ghost predicate ConsistentUp(inputs: seq<TypeId>, types: seq<TypeId>)
    requires |inputs| == |types|
  {
    forall i, j | 0 <= i < j < |inputs| && SameVar(inputs, i, j) :: types[i] == TYPE_UNKNOWN || types[j] == types[i]
  }

  ghost predicate Matches(inputs: seq<TypeId>, types: seq<TypeId>)
    requires |inputs| == |types|
  {
    (forall i | 0 <= i < |inputs| :: Scorable(inputs[i], types[i])) && ConsistentUp(inputs, types)
  }

  function Total(inputs: seq<TypeId>, types: seq<TypeId>): nat
    requires |inputs| == |types|
  {
    if inputs == [] then 0
    else
      var n := |inputs| - 1;
      Total(inputs[..n], types[..n]) + Points(inputs[n], types[n])
  }

  /** The score of a signature on a stack: -1 for no match. */
  ghost function Score(sig: Signature, stack: seq<TypeId>): int {
    var n := |sig.inputs|;
    if n <= |stack| && Matches(sig.inputs, Top(stack, n)) then Total(sig.inputs, Top(stack, n)) else -1
  }

  // ----- What a score is -----

  ghost function Where(n: nat, at: nat -> bool): set<nat> {
    set i: nat | i < n && at(i)
  }

  lemma OneMoreAt(n: nat, at: nat -> bool)
    ensures |Where(n + 1, at)| == |Where(n, at)| + if at(n) then 1 else 0
  {
    assert Where(n + 1, at) == Where(n, at) + if at(n) then {n} else {};
  }

  lemma {:induction false} TotalCounts(inputs: seq<TypeId>, types: seq<TypeId>, n: nat,
                                       equal: nat -> bool, variable: nat -> bool, unknown: nat -> bool, any: nat -> bool)
    requires |inputs| == |types| && n <= |inputs| && forall i | 0 <= i < n :: Scorable(inputs[i], types[i])
    requires forall i: nat | i < n :: equal(i) == (inputs[i] < 10 && types[i] == inputs[i]) && variable(i) == (11 <= inputs[i])
    requires forall i: nat | i < n :: unknown(i) == (inputs[i] < 10 && types[i] != inputs[i] && types[i] == 0) && any(i) == (inputs[i] == 10)
    ensures Total(inputs[..n], types[..n]) ==
      100 * |Where(n, equal)| + 80 * |Where(n, variable)| + 50 * |Where(n, unknown)| + 10 * |Where(n, any)|
  {
    if n > 0 {
      var k := n - 1;
      TotalCounts(inputs, types, k, equal, variable, unknown, any);
      assert inputs[..n][..k] == inputs[..k] && types[..n][..k] == types[..k];
      OneMoreAt(k, equal);
      OneMoreAt(k, variable);
      OneMoreAt(k, unknown);
      OneMoreAt(k, any);
    }
  }

  /** A score counts positions: 100 for an equal type, 80 for a variable, 50 for an unknown type
      on the stack, 10 for any. */
  lemma ScoreCounts(sig: Signature, stack: seq<TypeId>)
    requires Score(sig, stack) >= 0
    ensures var n := |sig.inputs|; var base := |stack| - n;
      && n <= |stack|
      && Score(sig, stack) ==
        100 * |set i: nat | i < n && sig.inputs[i] < 10 && stack[base + i] == sig.inputs[i]|
        + 80 * |set i: nat | i < n && 11 <= sig.inputs[i]|
        + 50 * |set i: nat | i < n && sig.inputs[i] < 10 && stack[base + i] != sig.inputs[i] && stack[base + i] == 0|
        + 10 * |set i: nat | i < n && sig.inputs[i] == 10|
  {
    hide Total, Points, ConsistentUp;
    var n := |sig.inputs|;
    var inputs, types, base := sig.inputs, Top(stack, n), |stack| - n;
    var equal := (i: nat) => i < n && inputs[i] < 10 && stack[base + i] == inputs[i];
    var variable := (i: nat) => i < n && 11 <= inputs[i];
    var unknown := (i: nat) => i < n && inputs[i] < 10 && stack[base + i] != inputs[i] && stack[base + i] == 0;
    var any := (i: nat) => i < n && inputs[i] == 10;
    TotalCounts(inputs, types, n, equal, variable, unknown, any);
    assert inputs[..n] == inputs && types[..n] == types;
    assert Where(n, equal) == set i: nat | i < n && inputs[i] < 10 && stack[base + i] == inputs[i];
    assert Where(n, variable) == set i: nat | i < n && 11 <= inputs[i];
    assert Where(n, unknown) == set i: nat | i < n && inputs[i] < 10 && stack[base + i] != inputs[i] && stack[base + i] == 0;
    assert Where(n, any) == set i: nat | i < n && inputs[i] == 10;
  }

  /** What matches at all: every input is equal, a variable or any, or stands over an unknown
      type; and the types under one variable are unknown up to a point and one type from there. */
  lemma MatchesIff(sig: Signature, stack: seq<TypeId>)
    ensures |sig.inputs| > |stack| ==> Score(sig, stack) < 0
    ensures |sig.inputs| <= |stack| ==> var types := stack[|stack| - |sig.inputs|..];
      Score(sig, stack) >= 0 <==>
        && (forall i | 0 <= i < |types| :: 10 <= sig.inputs[i] || types[i] == sig.inputs[i] || types[i] == 0)
        && forall i, j | 0 <= i < j < |types| && 11 <= sig.inputs[i] && sig.inputs[i] == sig.inputs[j] ::
             types[i] == 0 || types[i] == types[j]
  {
    hide Total;
    if |sig.inputs| > |stack| {
      return;
    }
    var inputs, types := sig.inputs, Top(stack, |sig.inputs|);
    assert ConsistentUp(inputs, types) <==>
      forall i, j | 0 <= i < j < |types| && 11 <= inputs[i] && inputs[i] == inputs[j] :: types[i] == 0 || types[i] == types[j] by {
      assert forall i, j | 0 <= i < j < |inputs| :: SameVar(inputs, i, j) <==> 11 <= inputs[i] && inputs[i] == inputs[j];
    }
    assert (forall i | 0 <= i < |inputs| :: Scorable(inputs[i], types[i])) <==>
      forall i | 0 <= i < |types| :: 10 <= inputs[i] || types[i] == inputs[i] || types[i] == 0 by {
      assert forall i | 0 <= i < |inputs| :: Scorable(inputs[i], types[i]) <==> 10 <= inputs[i] || types[i] == inputs[i] || types[i] == 0;
    }
    hide ConsistentUp, Scorable;
    assert Matches(inputs, types) <==> Score(sig, stack) >= 0;
  }

  lemma {:induction false} TotalChanged(inputs: seq<TypeId>, others: seq<TypeId>, types: seq<TypeId>, i: nat)
    requires |inputs| == |others| == |types| && i < |inputs| && others == inputs[i := others[i]]
    ensures Total(inputs, types) - Total(others, types) == Points(inputs[i], types[i]) - Points(others[i], types[i])
  {
    var n := |inputs| - 1;
    if i == n {
      assert inputs[..n] == others[..n];
    } else {
      TotalChanged(inputs[..n], others[..n], types[..n], i);
    }
  }

  /** Where two signatures that match differ in one input, the order is: equal type, variable,
      unknown type, any. */
  lemma OneInputDecides(a: Signature, b: Signature, stack: seq<TypeId>, i: nat)
    requires Score(a, stack) >= 0 && Score(b, stack) >= 0
    requires |a.inputs| == |b.inputs| && i < |a.inputs| && b.inputs == a.inputs[i := b.inputs[i]]
    ensures |a.inputs| <= |stack|
    ensures var x, y, t := a.inputs[i], b.inputs[i], stack[|stack| - |a.inputs| + i];
      Score(a, stack) > Score(b, stack) <==>
        || (x < 10 && x == t && (y >= 10 || y != t))
        || (x >= 11 && (y == 10 || (y < 10 && y != t)))
        || (x < 10 && x != t && y == 10)
  {
    var types := Top(stack, |a.inputs|);
    TotalChanged(a.inputs, b.inputs, types, i);
    assert Scorable(a.inputs[i], types[i]) && Scorable(b.inputs[i], types[i]);
  }

  lemma {:induction false} TotalBound(inputs: seq<TypeId>, types: seq<TypeId>)
    requires |inputs| == |types|
    ensures Total(inputs, types) <= 100 * |inputs|
    ensures Total(inputs, types) == 100 * |inputs| <==> inputs == types && forall i | 0 <= i < |inputs| :: inputs[i] < 10
  {
    if inputs != [] {
      var n := |inputs| - 1;
      TotalBound(inputs[..n], types[..n]);
      assert inputs == inputs[..n] + [inputs[n]] && types == types[..n] + [types[n]];
    }
  }

  /** The most a signature can score is 100 for each input, and only equal types do. */
  lemma ExactScoresMost(sig: Signature, stack: seq<TypeId>)
    ensures Score(sig, stack) <= 100 * |sig.inputs|
    ensures var n := |sig.inputs|;
      Score(sig, stack) == 100 * n <==> n <= |stack| && sig.inputs == stack[|stack| - n..] && forall i | 0 <= i < n :: sig.inputs[i] < 10
  {
    var n := |sig.inputs|;
    if n <= |stack| {
      TotalBound(sig.inputs, Top(stack, n));
    }
  }

  /** Among signatures of one arity, the one that names exactly the types on the stack
      scores strictly more than every other. */
  lemma ExactWins(a: Signature, b: Signature, stack: seq<TypeId>)
    requires |a.inputs| == |b.inputs| <= |stack| && a.inputs == stack[|stack| - |a.inputs|..] && b.inputs != a.inputs
    requires forall i | 0 <= i < |a.inputs| :: a.inputs[i] < 10
    ensures Score(a, stack) > Score(b, stack)
  {
    ExactScoresMost(a, stack);
    ExactScoresMost(b, stack);
  }

  // ----- Checking -----

  predicate Accepts(expected: TypeId, actual: TypeId) {
    || IsVar(expected) || expected == TYPE_ANY || actual == TYPE_ANY || expected == actual
    || (expected == TYPE_ARRAY && actual == TYPE_ARRAY_MUT)
    || (expected == TYPE_STR && actual == TYPE_STR_MUT)
  }

  /** Read downwards, the order in which types are popped. */
  ghost predicate ConsistentDown(inputs: seq<TypeId>, types: seq<TypeId>)
    requires |inputs| == |types|
  {
    forall i, j | 0 <= i < j < |inputs| && SameVar(inputs, i, j) :: types[j] == TYPE_UNKNOWN || types[i] == types[j]
  }

  ghost predicate Unifies(inputs: seq<TypeId>, types: seq<TypeId>)
    requires |inputs| == |types|
  {
    (forall i | 0 <= i < |inputs| :: Accepts(inputs[i], types[i])) && ConsistentDown(inputs, types)
  }

  ghost predicate Applies(sig: Signature, stack: seq<TypeId>) {
    |sig.inputs| <= |stack| && Unifies(sig.inputs, Top(stack, |sig.inputs|))
  }

  predicate Known(types: seq<TypeId>) {
    forall i | 0 <= i < |types| :: types[i] != TYPE_UNKNOWN
  }

  /** What apply_signature accepts: below the inputs there is a type each, which is the same,
      or any on one side, or the mutable form of the array or string that is asked for, not
      the other way round; and a variable stands, read downwards, for one type once known. */
  lemma AppliesIff(sig: Signature, stack: seq<TypeId>)
    ensures |sig.inputs| > |stack| ==> !Applies(sig, stack)
    ensures |sig.inputs| <= |stack| ==> var types := stack[|stack| - |sig.inputs|..];
      Applies(sig, stack) <==>
        && (forall i | 0 <= i < |types| :: 10 <= sig.inputs[i] || types[i] == 10 || types[i] == sig.inputs[i]
              || (sig.inputs[i] == 8 && types[i] == 9) || (sig.inputs[i] == 6 && types[i] == 7))
        && forall i, j | 0 <= i < j < |types| && 11 <= sig.inputs[i] && sig.inputs[i] == sig.inputs[j] ::
             types[j] == 0 || types[i] == types[j]
  {
    if |sig.inputs| > |stack| {
      return;
    }
    var inputs, types := sig.inputs, Top(stack, |sig.inputs|);
    assert forall i, j | 0 <= i < j < |inputs| :: SameVar(inputs, i, j) <==> 11 <= inputs[i] && inputs[i] == inputs[j];
    if Applies(sig, stack) {
      assert forall i | 0 <= i < |inputs| :: Accepts(inputs[i], types[i]);
    }
  }

  /** With known types the two readings agree: what scores also unifies. */
  lemma ScoredApplies(sig: Signature, stack: seq<TypeId>)
    requires Score(sig, stack) >= 0 && Known(Top(stack, |sig.inputs|))
    ensures Applies(sig, stack)
  {
  }

  /** No unknown type stands under a concrete input, and a variable's types are all the same. */
  ghost predicate Settled(inputs: seq<TypeId>, types: seq<TypeId>)
    requires |inputs| == |types|
  {
    && (forall i | 0 <= i < |inputs| && !IsVar(inputs[i]) && inputs[i] != TYPE_ANY && types[i] == TYPE_UNKNOWN :: inputs[i] == TYPE_UNKNOWN)
    && forall i, j | 0 <= i < j < |inputs| && SameVar(inputs, i, j) :: types[i] == types[j]
  }

  /** In general, what scores unifies exactly when nothing unknown gets in the way. */
  lemma ScoredAppliesIff(sig: Signature, stack: seq<TypeId>)
    requires Score(sig, stack) >= 0
    ensures Applies(sig, stack) <==> Settled(sig.inputs, Top(stack, |sig.inputs|))
  {
    var inputs, types := sig.inputs, Top(stack, |sig.inputs|);
    assert Matches(inputs, types);
    if Applies(sig, stack) {
      forall i | 0 <= i < |inputs| && !IsVar(inputs[i]) && inputs[i] != TYPE_ANY && types[i] == TYPE_UNKNOWN
        ensures inputs[i] == TYPE_UNKNOWN
      {
        assert Accepts(inputs[i], types[i]);
      }
    }
    if Settled(inputs, types) {
      forall i | 0 <= i < |inputs|
        ensures Accepts(inputs[i], types[i])
      {
        assert Scorable(inputs[i], types[i]);
      }
    }
  }

  lemma OneInput(sig: Signature, expected: TypeId, actual: TypeId)
    requires sig.inputs == [expected]
    ensures Score(sig, [actual]) == if Scorable(expected, actual) then Points(expected, actual) else -1
    ensures Applies(sig, [actual]) <==> Accepts(expected, actual)
  {
    var inputs, types := sig.inputs, [actual];
    assert Top(types, 1) == types;
    assert Total(inputs[..0], types[..0]) == 0;
    assert Total(inputs, types) == Points(inputs[0], types[0]);
    assert Matches(inputs, types) <==> Scorable(inputs[0], types[0]);
    assert Unifies(inputs, types) <==> Accepts(inputs[0], types[0]);
  }

  /** An entry that scores best may still not apply: an unknown type matches a concrete one
      for the scorer alone. */
  lemma ScoredMayFail()
    ensures exists sig: Signature, stack: seq<TypeId> :: Score(sig, stack) > 0 && !Applies(sig, stack)
  {
    var sig := Signature([TYPE_I64], []);
    OneInput(sig, TYPE_I64, TYPE_UNKNOWN);
    assert Score(sig, [TYPE_UNKNOWN]) > 0 && !Applies(sig, [TYPE_UNKNOWN]);
  }

  // ----- The unifier -----

  /** The first known type of a variable among the lowest n inputs. */
  function BoundUp(inputs: seq<TypeId>, types: seq<TypeId>, v: TypeId, n: nat): TypeId
    requires |inputs| == |types| && n <= |inputs|
  {
    if n == 0 then TYPE_UNKNOWN
    else
      var b := BoundUp(inputs, types, v, n - 1);
      if b == TYPE_UNKNOWN && inputs[n - 1] == v then types[n - 1] else b
  }

  /** The first known type of a variable, from the top input down to input n. */
  function BoundDown(inputs: seq<TypeId>, types: seq<TypeId>, v: TypeId, n: nat): TypeId
    requires |inputs| == |types| && n <= |inputs|
    decreases |inputs| - n
  {
    if n == |inputs| then TYPE_UNKNOWN
    else
      var b := BoundDown(inputs, types, v, n + 1);
      if b == TYPE_UNKNOWN && inputs[n] == v then types[n] else b
  }

  lemma {:induction false} BoundUpIs(inputs: seq<TypeId>, types: seq<TypeId>, v: TypeId, n: nat)
    requires |inputs| == |types| && n <= |inputs|
    ensures var b := BoundUp(inputs, types, v, n);
      && (b == TYPE_UNKNOWN ==> forall i | 0 <= i < n && inputs[i] == v :: types[i] == TYPE_UNKNOWN)
      && (b != TYPE_UNKNOWN ==> exists i :: 0 <= i < n && inputs[i] == v && types[i] == b)
  {
    if n > 0 {
      BoundUpIs(inputs, types, v, n - 1);
    }
  }

  lemma {:induction false} BoundDownIs(inputs: seq<TypeId>, types: seq<TypeId>, v: TypeId, n: nat)
    requires |inputs| == |types| && n <= |inputs|
    ensures var b := BoundDown(inputs, types, v, n);
      && (b == TYPE_UNKNOWN ==> forall i | n <= i < |inputs| && inputs[i] == v :: types[i] == TYPE_UNKNOWN)
      && (b != TYPE_UNKNOWN ==> exists i :: n <= i < |inputs| && inputs[i] == v && types[i] == b)
    decreases |inputs| - n
  {
    if n < |inputs| {
      BoundDownIs(inputs, types, v, n + 1);
    }
  }

  /** An output: a variable gives way to the type its inputs had. */
  function Resolve(inputs: seq<TypeId>, types: seq<TypeId>, t: TypeId): TypeId
    requires |inputs| == |types|
  {
    if IsVar(t) && BoundDown(inputs, types, t, 0) != TYPE_UNKNOWN then BoundDown(inputs, types, t, 0) else t
  }

  /** The unifier sends every variable that is an input to the type it stands for. */
  lemma ResolveIsUnifier(inputs: seq<TypeId>, types: seq<TypeId>, i: nat)
    requires |inputs| == |types| && i < |inputs| && IsVar(inputs[i]) && Unifies(inputs, types) && types[i] != TYPE_UNKNOWN
    ensures Resolve(inputs, types, inputs[i]) == types[i]
  {
    BoundDownIs(inputs, types, inputs[i], 0);
    var b := BoundDown(inputs, types, inputs[i], 0);
    var j :| 0 <= j < |inputs| && inputs[j] == inputs[i] && types[j] == b;
    assert i < j ==> SameVar(inputs, i, j);
    assert j < i ==> SameVar(inputs, j, i);
  }
}
