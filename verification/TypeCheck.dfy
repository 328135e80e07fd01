/** The typing step for one word (src/compiler.c:511-579). */
module TypeCheck {
  import opened Wrappers
  import opened Signatures
  import opened Dictionary
  import opened RefGraph
  import opened Reach
  import opened Liveness

  function Kinds(stack: seq<Entry>): (types: seq<Signatures.TypeId>)
    ensures |types| == |stack| && forall i | 0 <= i < |stack| :: types[i] == stack[i].kind
  {
    seq(|stack|, i requires 0 <= i < |stack| => stack[i].kind)
  }

  /** The bindings made by the inputs from the top down to input n. */
  ghost predicate BindingsDown(bindings: seq<Signatures.TypeId>, inputs: seq<Signatures.TypeId>, types: seq<Signatures.TypeId>, n: nat)
    requires |inputs| == |types| && n <= |inputs|
  {
    |bindings| == 26 && forall v | 0 <= v < 26 :: bindings[v] == BoundDown(inputs, types, TYPE_VAR_A + v, n)
  }

  ghost predicate ConsistentFrom(inputs: seq<Signatures.TypeId>, types: seq<Signatures.TypeId>, n: nat)
    requires |inputs| == |types| && n <= |inputs|
  {
    forall i, j | n <= i < j < |inputs| && SameVar(inputs, i, j) :: types[j] == TYPE_UNKNOWN || types[i] == types[j]
  }

  lemma VarStepDown(inputs: seq<Signatures.TypeId>, types: seq<Signatures.TypeId>, n: nat)
    requires |inputs| == |types| && n < |inputs| && IsVar(inputs[n]) && ConsistentFrom(inputs, types, n + 1)
    ensures var b := BoundDown(inputs, types, inputs[n], n + 1);
      ConsistentFrom(inputs, types, n) <==> b == TYPE_UNKNOWN || b == types[n]
  {
    BoundDownIs(inputs, types, inputs[n], n + 1);
    var b := BoundDown(inputs, types, inputs[n], n + 1);
    if b != TYPE_UNKNOWN {
      var i :| n + 1 <= i < |inputs| && inputs[i] == inputs[n] && types[i] == b;
      assert SameVar(inputs, n, i);
      forall k | n < k < |inputs| && SameVar(inputs, n, k)
        ensures types[k] == TYPE_UNKNOWN || types[k] == b
      {
        assert k < i ==> SameVar(inputs, k, i);
        assert i < k ==> SameVar(inputs, i, k);
      }
    }
  }

  lemma PlainStepDown(inputs: seq<Signatures.TypeId>, types: seq<Signatures.TypeId>, n: nat)
    requires |inputs| == |types| && n < |inputs| && !IsVar(inputs[n]) && ConsistentFrom(inputs, types, n + 1)
    ensures ConsistentFrom(inputs, types, n)
  {
  }

  lemma InconsistentDown(inputs: seq<Signatures.TypeId>, types: seq<Signatures.TypeId>, n: nat)
    requires |inputs| == |types| && n <= |inputs| && !ConsistentFrom(inputs, types, n)
    ensures !ConsistentDown(inputs, types)
  {
  }

  /** Plain values pushed one by one; what does not fit is lost. */
  function Pushed(stack: seq<Entry>, kinds: seq<Signatures.TypeId>): seq<Entry> {
    if kinds == [] then stack
    else
      var n := |kinds| - 1;
      var below := Pushed(stack, kinds[..n]);
      if |below| < MAX_TYPE_STACK then below + [Entry(kinds[n], -1, INVALID)] else below
  }

  /** Nothing is lost while there is room. */
  lemma {:induction false} PushedFits(stack: seq<Entry>, kinds: seq<Signatures.TypeId>)
    requires |stack| + |kinds| <= MAX_TYPE_STACK
    ensures |Pushed(stack, kinds)| == |stack| + |kinds| && Pushed(stack, kinds)[..|stack|] == stack
    ensures Kinds(Pushed(stack, kinds)) == Kinds(stack) + kinds
  {
    if kinds != [] {
      PushedFits(stack, kinds[..|kinds| - 1]);
    }
  }

  /** What lies at each place after the outputs were pushed. */
  lemma {:induction false} PushedAt(stack: seq<Entry>, kinds: seq<Signatures.TypeId>)
    requires |stack| <= 256
    ensures |Pushed(stack, kinds)| == if |stack| + |kinds| <= 256 then |stack| + |kinds| else 256
    ensures Pushed(stack, kinds)[..|stack|] == stack
    ensures forall j | |stack| <= j < |Pushed(stack, kinds)| :: Pushed(stack, kinds)[j] == Entry(kinds[j - |stack|], -1, 0)
  {
    if kinds != [] {
      PushedAt(stack, kinds[..|kinds| - 1]);
    }
  }

  /** What an output leaves: a concrete one stands as declared, a variable as the known type of
      its inputs, or as itself when it has none. */
  ghost predicate OutputIs(inputs: seq<Signatures.TypeId>, types: seq<Signatures.TypeId>, output: Signatures.TypeId, kind: Signatures.TypeId)
    requires |inputs| == |types|
  {
    && (output < 11 ==> kind == output)
    && (output >= 11 && (forall i | 0 <= i < |types| && inputs[i] == output :: types[i] == 0) ==> kind == output)
    && (output >= 11 && Unifies(inputs, types) ==> forall i | 0 <= i < |types| && inputs[i] == output && types[i] != 0 :: kind == types[i])
  }

  lemma ResolvedIs(inputs: seq<Signatures.TypeId>, types: seq<Signatures.TypeId>, output: Signatures.TypeId)
    requires |inputs| == |types|
    ensures OutputIs(inputs, types, output, Resolve(inputs, types, output))
  {
    BoundDownIs(inputs, types, output, 0);
    forall i | 0 <= i < |types| && output >= 11 && Unifies(inputs, types) && inputs[i] == output && types[i] != 0
      ensures Resolve(inputs, types, output) == types[i]
    {
      ResolveIsUnifier(inputs, types, i);
    }
  }

  /** The stack after the outputs, place by place; what does not fit is lost. */
  ghost predicate OutputsStand(below: seq<Entry>, sig: Signature, types: seq<Signatures.TypeId>, stack: seq<Entry>)
    requires |sig.inputs| == |types|
  {
    var n := |below|;
    && |stack| == (if n + |sig.outputs| <= 256 then n + |sig.outputs| else 256) && n <= |stack| && stack[..n] == below
    && forall j | n <= j < |stack| ::
      stack[j].slotId == -1 && stack[j].nodeId == 0 && OutputIs(sig.inputs, types, sig.outputs[j - n], stack[j].kind)
  }

  lemma PushedStand(below: seq<Entry>, sig: Signature, types: seq<Signatures.TypeId>)
    requires |sig.inputs| == |types| && |below| <= 256
    ensures OutputsStand(below, sig, types, Pushed(below, Resolved(sig, types)))
  {
    hide Pushed, OutputIs, Resolve, Kinds;
    var outputs := Resolved(sig, types);
    PushedAt(below, outputs);
    AllStand(below, sig, types, outputs, Pushed(below, outputs));
  }

  lemma AllStand(below: seq<Entry>, sig: Signature, types: seq<Signatures.TypeId>, outputs: seq<Signatures.TypeId>, stack: seq<Entry>)
    requires |sig.inputs| == |types| && |outputs| == |sig.outputs|
    requires forall i | 0 <= i < |outputs| :: outputs[i] == Resolve(sig.inputs, types, sig.outputs[i])
    requires |stack| == (if |below| + |outputs| <= 256 then |below| + |outputs| else 256) && |below| <= |stack| && stack[..|below|] == below
    requires forall j | |below| <= j < |stack| :: stack[j] == Entry(outputs[j - |below|], -1, 0)
    ensures OutputsStand(below, sig, types, stack)
  {
    hide OutputIs, Resolve;
    forall j | |below| <= j < |stack|
      ensures OutputIs(sig.inputs, types, sig.outputs[j - |below|], stack[j].kind)
    {
      ResolvedIs(sig.inputs, types, sig.outputs[j - |below|]);
    }
  }

  function Resolved(sig: Signature, types: seq<Signatures.TypeId>): (outputs: seq<Signatures.TypeId>)
    requires |sig.inputs| == |types|
    ensures |outputs| == |sig.outputs| && forall i | 0 <= i < |outputs| :: outputs[i] == Resolve(sig.inputs, types, sig.outputs[i])
  {
    seq(|sig.outputs|, i requires 0 <= i < |sig.outputs| => Resolve(sig.inputs, types, sig.outputs[i]))
  }

  /** The same, read off the stack as it was before. */
  lemma OutputsLaw(was: seq<Entry>, sig: Signature, stack: seq<Entry>)
    requires |sig.inputs| <= |was| && Unifies(sig.inputs, Kinds(was)[|was| - |sig.inputs|..])
    requires OutputsStand(was[..|was| - |sig.inputs|], sig, Kinds(was)[|was| - |sig.inputs|..], stack)
    ensures var n := |was| - |sig.inputs|;
      && 0 <= n && |stack| == (if n + |sig.outputs| <= 256 then n + |sig.outputs| else 256) && stack[..n] == was[..n]
      && forall j | 0 <= j < |sig.outputs| && n + j < 256 ::
        var output, pushed := sig.outputs[j], stack[n + j];
        && pushed.slotId == -1 && pushed.nodeId == 0
        && (output < 11 ==> pushed.kind == output)
        && (output >= 11 && (forall i | 0 <= i < |sig.inputs| && sig.inputs[i] == output :: was[n + i].kind == 0) ==> pushed.kind == output)
        && (output >= 11 ==> forall i | 0 <= i < |sig.inputs| && sig.inputs[i] == output && was[n + i].kind != 0 :: pushed.kind == was[n + i].kind)
  {
    hide Unifies;
    var n := |was| - |sig.inputs|;
    var types := Kinds(was)[n..];
    assert forall i | 0 <= i < |types| :: types[i] == was[n + i].kind;
    forall j | 0 <= j < |sig.outputs| && n + j < 256
      ensures stack[n + j].slotId == -1 && stack[n + j].nodeId == 0 && OutputIs(sig.inputs, types, sig.outputs[j], stack[n + j].kind)
    {
      assert n <= n + j < |stack|;
    }
  }

  /** apply_signature: it succeeds exactly when the top of the stack unifies with the inputs,
      and then leaves what was below them and the outputs under the unifier. */
  method ApplySignature(c: Tracker, sig: Signature) returns (ok: bool)
    requires c.Valid()
    modifies c`typeStack
    ensures c.Valid()
    ensures ok <==> Applies(sig, Kinds(old(c.typeStack)))
    ensures ok ==> var n := |old(c.typeStack)| - |sig.inputs|;
      c.typeStack == Pushed(old(c.typeStack)[..n], Resolved(sig, Kinds(old(c.typeStack))[n..]))
    ensures ok ==> var was := old(c.typeStack); var n := |was| - |sig.inputs|;
      && 0 <= n && |c.typeStack| == (if n + |sig.outputs| <= 256 then n + |sig.outputs| else 256) && c.typeStack[..n] == was[..n]
      && forall j | 0 <= j < |sig.outputs| && n + j < 256 ::
        var output, pushed := sig.outputs[j], c.typeStack[n + j];
        && pushed.slotId == -1 && pushed.nodeId == 0
        && (output < 11 ==> pushed.kind == output)
        && (output >= 11 && (forall i | 0 <= i < |sig.inputs| && sig.inputs[i] == output :: was[n + i].kind == 0) ==> pushed.kind == output)
        && (output >= 11 ==> forall i | 0 <= i < |sig.inputs| && sig.inputs[i] == output && was[n + i].kind != 0 :: pushed.kind == was[n + i].kind)
    ensures !ok ==> c.typeStack <= old(c.typeStack)
  {
    hide ChildrenKnown, SlotsFit, SlotsDistinct, Unifies, BindingsDown, Pushed, OutputsStand;
    if |c.typeStack| < |sig.inputs| {
      assert c.typeStack[..|c.typeStack|] == c.typeStack;
      return false;
    }
    ghost var base := |c.typeStack| - |sig.inputs|;
    var bindings := new Signatures.TypeId[26](_ => TYPE_UNKNOWN);
    ok := PopInputs(c, sig, bindings);
    if ok {
      assert c.typeStack == old(c.typeStack)[..base];
      PushOutputs(c, sig, bindings, Kinds(old(c.typeStack))[base..]);
      OutputsLaw(old(c.typeStack), sig, c.typeStack);
    }
  }

  /** One input against one popped type. */
  method CheckInput(expected: Signatures.TypeId, actual: Signatures.TypeId, bindings: array<Signatures.TypeId>,
                    ghost inputs: seq<Signatures.TypeId>, ghost types: seq<Signatures.TypeId>, ghost i: nat)
    returns (ok: bool)
    requires |inputs| == |types| && i < |inputs| && expected == inputs[i] && actual == types[i]
    requires ConsistentFrom(inputs, types, i + 1) && BindingsDown(bindings[..], inputs, types, i + 1)
    modifies bindings
    ensures ok ==> Accepts(expected, actual) && ConsistentFrom(inputs, types, i) && BindingsDown(bindings[..], inputs, types, i)
    ensures !ok ==> !Unifies(inputs, types)
  {
    if IsVar(expected) {
      VarStepDown(inputs, types, i);
      var v := expected - TYPE_VAR_A;
      if bindings[v] == TYPE_UNKNOWN {
        bindings[v] := actual;
      } else if bindings[v] != actual {
        InconsistentDown(inputs, types, i);
        return false;
      }
    } else {
      PlainStepDown(inputs, types, i);
      if expected != TYPE_ANY && actual != TYPE_ANY && expected != actual {
        var compatible := (expected == TYPE_ARRAY && actual == TYPE_ARRAY_MUT) || (expected == TYPE_STR && actual == TYPE_STR_MUT);
        if !compatible {
          assert !Accepts(inputs[i], types[i]);
          return false;
        }
      }
    }
    return true;
  }

  /** The inputs are popped and checked from the top; a mismatch leaves the rest in place. */
  method PopInputs(c: Tracker, sig: Signature, bindings: array<Signatures.TypeId>) returns (ok: bool)
    requires c.Valid() && |sig.inputs| <= |c.typeStack|
    requires bindings.Length == 26 && forall v | 0 <= v < 26 :: bindings[v] == TYPE_UNKNOWN
    modifies c`typeStack, bindings
    ensures c.Valid() && c.typeStack <= old(c.typeStack)
    ensures var types := Kinds(old(c.typeStack))[|old(c.typeStack)| - |sig.inputs|..];
      && (ok <==> Unifies(sig.inputs, types))
      && (ok ==> |c.typeStack| == |old(c.typeStack)| - |sig.inputs| && BindingsDown(bindings[..], sig.inputs, types, 0))
  {
    hide ChildrenKnown, SlotsFit, SlotsDistinct, Accepts, Unifies, BindingsDown, ConsistentFrom;
    ghost var was, base := c.typeStack, |c.typeStack| - |sig.inputs|;
    ghost var inputs, types := sig.inputs, Kinds(was)[base..];
    var i: nat := |sig.inputs|;
    NothingPopped(bindings[..], inputs, types);
    while i > 0
      invariant c.Valid() && i <= |sig.inputs| && c.typeStack == was[..base + i]
      invariant forall k | i <= k < |inputs| :: Accepts(inputs[k], types[k])
      invariant ConsistentFrom(inputs, types, i) && BindingsDown(bindings[..], inputs, types, i)
    {
      i := i - 1;
      var actual := c.typeStack[|c.typeStack| - 1].kind;
      var _ := c.Drop();
      var matched := CheckInput(sig.inputs[i], actual, bindings, inputs, types, i);
      if !matched {
        return false;
      }
    }
    AllPopped(inputs, types);
    return true;
  }

  lemma NothingPopped(bindings: seq<Signatures.TypeId>, inputs: seq<Signatures.TypeId>, types: seq<Signatures.TypeId>)
    requires |inputs| == |types| && |bindings| == 26 && forall v | 0 <= v < 26 :: bindings[v] == TYPE_UNKNOWN
    ensures ConsistentFrom(inputs, types, |inputs|) && BindingsDown(bindings, inputs, types, |inputs|)
  {
  }

  lemma AllPopped(inputs: seq<Signatures.TypeId>, types: seq<Signatures.TypeId>)
    requires |inputs| == |types| && ConsistentFrom(inputs, types, 0)
    requires forall k | 0 <= k < |inputs| :: Accepts(inputs[k], types[k])
    ensures Unifies(inputs, types)
  {
  }

  /** The outputs, with bound variables resolved. */
  method PushOutputs(c: Tracker, sig: Signature, bindings: array<Signatures.TypeId>, ghost types: seq<Signatures.TypeId>)
    requires c.Valid() && |types| == |sig.inputs| && BindingsDown(bindings[..], sig.inputs, types, 0)
    modifies c`typeStack
    ensures c.Valid() && c.typeStack == Pushed(old(c.typeStack), Resolved(sig, types))
    ensures OutputsStand(old(c.typeStack), sig, types, c.typeStack)
  {
    hide ChildrenKnown, SlotsFit, SlotsDistinct;
    ghost var outputs := Resolved(sig, types);
    for i := 0 to |sig.outputs|
      invariant c.Valid() && c.typeStack == Pushed(old(c.typeStack), outputs[..i])
    {
      var output := sig.outputs[i];
      if IsVar(output) && bindings[output - TYPE_VAR_A] != TYPE_UNKNOWN {
        output := bindings[output - TYPE_VAR_A];
      }
      assert outputs[..i + 1][..i] == outputs[..i];
      assert output == outputs[i];
      c.PushType(output);
    }
    assert outputs[..|sig.outputs|] == outputs;
    PushedStand(old(c.typeStack), sig, types);
  }

  lemma BestApplies(all: seq<DictEntry>, name: string, stack: seq<Signatures.TypeId>, k: nat)
    requires BestNamed(all, name, stack, k)
    ensures |all[k].signature.inputs| <= |stack|
    ensures Applies(all[k].signature, stack) <==> Settled(all[k].signature.inputs, Top(stack, |all[k].signature.inputs|))
    ensures Signatures.Known(stack) ==> Applies(all[k].signature, stack)
  {
    hide Applies, Settled, Matches;
    var sig := all[k].signature;
    ScoredAppliesIff(sig, stack);
    if Signatures.Known(stack) {
      ScoredApplies(sig, stack);
    }
  }

  /** compile_word for a word that is neither immediate nor still to be compiled: the best
      entry is chosen, then its signature applied. With known types on the stack the choice
      always applies. */
  method ResolveWord(c: Tracker, d: Dict, name: string) returns (found: Option<DictEntry>, ok: bool)
    requires c.Valid() && d.Valid()
    modifies c`typeStack
    ensures c.Valid()
    ensures found.None? ==> !ok && forall j | 0 <= j < |d.all| && d.all[j].name == name :: Score(d.all[j].signature, Kinds(old(c.typeStack))) < 0
    ensures found.Some? ==> exists k: nat :: BestNamed(d.all, name, Kinds(old(c.typeStack)), k) && found.value == d.all[k]
    ensures found.Some? ==> (ok <==> Applies(found.value.signature, Kinds(old(c.typeStack))))
    ensures found.Some? && Signatures.Known(Kinds(old(c.typeStack))) ==> ok
    ensures ok ==> var n := |old(c.typeStack)| - |found.value.signature.inputs|;
      c.typeStack == Pushed(old(c.typeStack)[..n], Resolved(found.value.signature, Kinds(old(c.typeStack))[n..]))
  {
    hide ChildrenKnown, SlotsFit, SlotsDistinct, Applies, Pushed, Beats, Dict.Valid, Score;
    found, ok := None, false;
    var newest := d.Lookup(name);
    if newest.None? {
      return;
    }
    var types := Kinds(c.typeStack);
    found := d.LookupTyped(name, types);
    if found.None? {
      return;
    }
    ghost var k: nat :| BestNamed(d.all, name, types, k) && found.value == d.all[k];
    BestApplies(d.all, name, types, k);
    ok := ApplySignature(c, found.value.signature);
  }
}
