/** The dictionary (src/dictionary.c): bucket chains, scores and overload resolution. */
module Dictionary {
  import opened Wrappers
  import opened Signatures

  const INITIAL_BUCKETS: nat := 256

  datatype DictEntry = DictEntry(name: string, primId: nat, signature: Signature, isPrimitive: bool, isImmediate: bool, priority: nat)

  /** How specific the inputs are: 100 for i64 and u64, 10 for any. */
  function Priority(inputs: seq<TypeId>): nat {
    if inputs == [] then 0
    else
      var n := |inputs| - 1;
      Priority(inputs[..n]) +
      if inputs[n] == TYPE_I64 || inputs[n] == TYPE_U64 then 100
      else if inputs[n] == TYPE_ANY then 10
      else 0
  }

  lemma {:induction false} PriorityCounts(inputs: seq<TypeId>, n: nat, integer: nat -> bool, any: nat -> bool)
    requires n <= |inputs|
    requires forall i: nat | i < n :: integer(i) == (inputs[i] == 1 || inputs[i] == 2) && any(i) == (inputs[i] == 10)
    ensures Priority(inputs[..n]) == 100 * |Where(n, integer)| + 10 * |Where(n, any)|
  {
    if n > 0 {
      PriorityCounts(inputs, n - 1, integer, any);
      assert inputs[..n][..n - 1] == inputs[..n - 1];
      OneMoreAt(n - 1, integer);
      OneMoreAt(n - 1, any);
    }
  }

  /** A priority counts inputs: 100 for i64 and u64, 10 for any. */
  lemma PriorityIs(inputs: seq<TypeId>)
    ensures Priority(inputs) ==
      100 * |set i: nat | i < |inputs| && (inputs[i] == 1 || inputs[i] == 2)| + 10 * |set i: nat | i < |inputs| && inputs[i] == 10|
  {
    var n := |inputs|;
    var integer, any := (i: nat) => i < n && (inputs[i] == 1 || inputs[i] == 2), (i: nat) => i < n && inputs[i] == 10;
    PriorityCounts(inputs, n, integer, any);
    assert inputs[..n] == inputs;
    assert Where(n, integer) == set i: nat | i < n && (inputs[i] == 1 || inputs[i] == 2);
    assert Where(n, any) == set i: nat | i < n && inputs[i] == 10;
  }

  // ----- Scoring -----

  /** The bindings made by the lowest n inputs. */
  ghost predicate BindingsUp(bindings: seq<TypeId>, inputs: seq<TypeId>, types: seq<TypeId>, n: nat)
    requires |inputs| == |types| && n <= |inputs|
  {
    |bindings| == 26 && forall v | 0 <= v < 26 :: bindings[v] == BoundUp(inputs, types, TYPE_VAR_A + v, n)
  }

  ghost predicate ConsistentTo(inputs: seq<TypeId>, types: seq<TypeId>, n: nat)
    requires |inputs| == |types| && n <= |inputs|
  {
    forall i, j | 0 <= i < j < n && SameVar(inputs, i, j) :: types[i] == TYPE_UNKNOWN || types[j] == types[i]
  }

  /** One more input of a variable: its binding decides. */
  lemma VarStep(inputs: seq<TypeId>, types: seq<TypeId>, n: nat)
    requires |inputs| == |types| && n < |inputs| && IsVar(inputs[n]) && ConsistentTo(inputs, types, n)
    ensures var b := BoundUp(inputs, types, inputs[n], n);
      ConsistentTo(inputs, types, n + 1) <==> b == TYPE_UNKNOWN || b == types[n]
  {
    BoundUpIs(inputs, types, inputs[n], n);
    var b := BoundUp(inputs, types, inputs[n], n);
    if b != TYPE_UNKNOWN {
      var i :| 0 <= i < n && inputs[i] == inputs[n] && types[i] == b;
      assert SameVar(inputs, i, n);
      forall k | 0 <= k < n && SameVar(inputs, k, n)
        ensures types[k] == TYPE_UNKNOWN || types[k] == b
      {
        assert k < i ==> SameVar(inputs, k, i);
        assert i < k ==> SameVar(inputs, i, k);
      }
    }
  }

  lemma PlainStep(inputs: seq<TypeId>, types: seq<TypeId>, n: nat)
    requires |inputs| == |types| && n < |inputs| && !IsVar(inputs[n]) && ConsistentTo(inputs, types, n)
    ensures ConsistentTo(inputs, types, n + 1)
  {
  }

  lemma Inconsistent(inputs: seq<TypeId>, types: seq<TypeId>, n: nat)
    requires |inputs| == |types| && n <= |inputs| && !ConsistentTo(inputs, types, n)
    ensures !ConsistentUp(inputs, types)
  {
  }

  lemma TotalStep(inputs: seq<TypeId>, types: seq<TypeId>, n: nat)
    requires |inputs| == |types| && n < |inputs|
    ensures Total(inputs[..n + 1], types[..n + 1]) == Total(inputs[..n], types[..n]) + Points(inputs[n], types[n])
  {
    assert inputs[..n + 1][..n] == inputs[..n] && types[..n + 1][..n] == types[..n];
  }

  /** match_score. */
  method MatchScore(sig: Signature, stack: seq<TypeId>) returns (score: int)
    ensures score == Score(sig, stack)
  {
    hide Total, Points, Scorable, ConsistentTo, BindingsUp, ConsistentUp;
    if |stack| < |sig.inputs| {
      return -1;
    }
    score := 0;
    var n := |sig.inputs|;
    ghost var inputs, types := sig.inputs, Top(stack, n);
    var bindings := new TypeId[26](_ => TYPE_UNKNOWN);
    NothingScored(bindings[..], inputs, types);
    for i := 0 to n
      invariant score == Total(inputs[..i], types[..i])
      invariant forall k | 0 <= k < i :: Scorable(inputs[k], types[k])
      invariant ConsistentTo(inputs, types, i) && BindingsUp(bindings[..], inputs, types, i)
    {
      var points := ScoreInput(sig.inputs[i], stack[|stack| - n + i], bindings, inputs, types, i);
      TotalStep(inputs, types, i);
      if points < 0 {
        return -1;
      }
      score := score + points;
    }
    AllScored(inputs, types);
  }

  lemma NothingScored(bindings: seq<TypeId>, inputs: seq<TypeId>, types: seq<TypeId>)
    requires |inputs| == |types| && |bindings| == 26 && forall v | 0 <= v < 26 :: bindings[v] == TYPE_UNKNOWN
    ensures Total(inputs[..0], types[..0]) == 0 && ConsistentTo(inputs, types, 0) && BindingsUp(bindings, inputs, types, 0)
  {
  }

  lemma AllScored(inputs: seq<TypeId>, types: seq<TypeId>)
    requires |inputs| == |types| && ConsistentTo(inputs, types, |inputs|)
    requires forall k | 0 <= k < |inputs| :: Scorable(inputs[k], types[k])
    ensures Matches(inputs, types) && inputs[..|inputs|] == inputs && types[..|types|] == types
  {
  }

  /** The points of one input, or -1. */
  method ScoreInput(sigType: TypeId, stackType: TypeId, bindings: array<TypeId>, ghost inputs: seq<TypeId>, ghost types: seq<TypeId>, ghost i: nat)
    returns (points: int)
    requires |inputs| == |types| && i < |inputs| && sigType == inputs[i] && stackType == types[i]
    requires ConsistentTo(inputs, types, i) && BindingsUp(bindings[..], inputs, types, i)
    modifies bindings
    ensures points >= 0 ==>
      points == Points(sigType, stackType) && Scorable(sigType, stackType) &&
      ConsistentTo(inputs, types, i + 1) && BindingsUp(bindings[..], inputs, types, i + 1)
    ensures points < 0 ==> !Matches(inputs, types)
  {
    if IsVar(sigType) {
      VarStep(inputs, types, i);
      var v := sigType - TYPE_VAR_A;
      if bindings[v] == TYPE_UNKNOWN {
        bindings[v] := stackType;
        return 80;
      } else if bindings[v] == stackType {
        return 80;
      } else {
        Inconsistent(inputs, types, i + 1);
        return -1;
      }
    }
    PlainStep(inputs, types, i);
    if sigType == TYPE_ANY {
      return 10;
    } else if stackType == sigType {
      return 100;
    } else if stackType == TYPE_UNKNOWN {
      return 50;
    }
    assert !Scorable(inputs[i], types[i]);
    return -1;
  }

  // ----- Resolution -----

  /** Entry i is what overload resolution promises: it matches, nothing beats it on score and
      then priority, and whatever equals it on both was added earlier. Newest first. */
  ghost predicate Best(entries: seq<DictEntry>, stack: seq<TypeId>, i: nat) {
    && i < |entries| && Score(entries[i].signature, stack) >= 0
    && forall j | 0 <= j < |entries| && j != i :: Beats(entries[i], entries[j], stack, j < i)
  }

  /** On equal terms an entry beats an older one only. */
  ghost predicate Beats(a: DictEntry, b: DictEntry, stack: seq<TypeId>, bNewer: bool) {
    var s, t := Score(a.signature, stack), Score(b.signature, stack);
    s > t || (s == t && (a.priority > b.priority || (a.priority == b.priority && !bNewer)))
  }

  ghost predicate NoneMatches(entries: seq<DictEntry>, stack: seq<TypeId>) {
    forall i | 0 <= i < |entries| :: Score(entries[i].signature, stack) < 0
  }

  function Named(chain: seq<DictEntry>, name: string): seq<DictEntry> {
    if chain == [] then []
    else
      var n := |chain| - 1;
      if chain[n].name == name then Named(chain[..n], name) + [chain[n]] else Named(chain[..n], name)
  }

  lemma NoCandidates(stack: seq<TypeId>)
    ensures NoneMatches([], stack)
  {
  }

  /** One candidate more, older than all before it. */
  lemma OneMoreCandidate(entries: seq<DictEntry>, e: DictEntry, stack: seq<TypeId>, at: nat, found: bool)
    requires if found then at < |entries| && Best(entries, stack, at) else NoneMatches(entries, stack)
    ensures var more := entries + [e]; var score := Score(e.signature, stack);
      if !found then if score > -1 then Best(more, stack, |entries|) else NoneMatches(more, stack)
      else
        var was := entries[at];
        if score > Score(was.signature, stack) || (score == Score(was.signature, stack) && e.priority > was.priority)
        then Best(more, stack, |entries|) else Best(more, stack, at)
  {
    hide Score;
    var more := entries + [e];
    forall i | 0 <= i < |entries|
      ensures more[i] == entries[i]
    {
    }
  }

  /** Entry k is the best of its name among all entries, newest first. */
  ghost predicate BestNamed(all: seq<DictEntry>, name: string, stack: seq<TypeId>, k: nat) {
    && k < |all| && all[k].name == name && Score(all[k].signature, stack) >= 0
    && forall j | 0 <= j < |all| && j != k && all[j].name == name :: Beats(all[k], all[j], stack, j < k)
  }

  /** Only one entry is best of a name: the others score less, or as much with less priority,
      or as much with the same priority and are older. */
  lemma OneBest(all: seq<DictEntry>, name: string, stack: seq<TypeId>, k: nat, j: nat)
    requires BestNamed(all, name, stack, k) && j < |all| && all[j].name == name && j != k
    ensures !BestNamed(all, name, stack, j)
    ensures Score(all[j].signature, stack) <= Score(all[k].signature, stack)
    ensures Score(all[j].signature, stack) == Score(all[k].signature, stack) ==>
      all[j].priority <= all[k].priority && (all[j].priority == all[k].priority ==> k < j)
  {
    hide Score;
    assert Beats(all[k], all[j], stack, j < k);
    assert !Beats(all[j], all[k], stack, k < j);
  }

  lemma {:induction false} NamedHolds(all: seq<DictEntry>, name: string, j: nat)
    requires j < |all| && all[j].name == name
    ensures all[j] in Named(all, name)
  {
    var n := |all| - 1;
    if j < n {
      NamedHolds(all[..n], name, j);
    }
  }

  lemma {:induction false} NamedFrom(all: seq<DictEntry>, name: string, i: nat)
    requires i < |Named(all, name)|
    ensures exists j: nat :: j < |all| && all[j] == Named(all, name)[i] && all[j].name == name
  {
    var n := |all| - 1;
    if i < |Named(all[..n], name)| {
      NamedFrom(all[..n], name, i);
      var j: nat :| j < n && all[..n][j] == Named(all[..n], name)[i] && all[..n][j].name == name;
      assert all[j] == Named(all, name)[i];
    } else {
      assert all[n].name == name;
    }
  }

  /** The best of the entries of a name is the best of the name. */
  lemma {:induction false} BestOfName(all: seq<DictEntry>, name: string, stack: seq<TypeId>, i: nat) returns (k: nat)
    requires Best(Named(all, name), stack, i)
    ensures BestNamed(all, name, stack, k) && all[k] == Named(all, name)[i]
  {
    hide Score, Beats;
    var n := |all| - 1;
    var front, last, named := all[..n], all[n], Named(all[..n], name);
    if i < |named| {
      assert forall j | 0 <= j < |named| :: named[j] == Named(all, name)[j];
      k := BestOfName(front, name, stack, i);
      if last.name == name {
        assert Named(all, name)[|named|] == last;
      }
    } else {
      k := n;
      forall j | 0 <= j < n && all[j].name == name
        ensures Beats(last, all[j], stack, true)
      {
        NamedHolds(front, name, j);
        var at :| 0 <= at < |named| && named[at] == all[j];
        assert Named(all, name)[at] == named[at];
      }
    }
  }

  /** The first of the entries of a name is the newest. */
  lemma {:induction false} NewestOfName(all: seq<DictEntry>, name: string)
    ensures Named(all, name) == [] ==> forall i | 0 <= i < |all| :: all[i].name != name
    ensures Named(all, name) != [] ==> exists i: nat ::
      i < |all| && Named(all, name)[0] == all[i] && all[i].name == name && forall j | 0 <= j < i :: all[j].name != name
  {
    if all != [] {
      var n := |all| - 1;
      NewestOfName(all[..n], name);
      if Named(all[..n], name) != [] {
        var i: nat :| i < n && Named(all[..n], name)[0] == all[..n][i] && all[..n][i].name == name
          && forall j | 0 <= j < i :: all[..n][j].name != name;
        assert Named(all, name)[0] == all[i] && forall j | 0 <= j < i :: all[j] == all[..n][j];
      }
    }
  }

  lemma NoneOfName(all: seq<DictEntry>, name: string, stack: seq<TypeId>)
    requires NoneMatches(Named(all, name), stack)
    ensures forall j | 0 <= j < |all| && all[j].name == name :: Score(all[j].signature, stack) < 0
  {
    forall j | 0 <= j < |all| && all[j].name == name
      ensures Score(all[j].signature, stack) < 0
    {
      NamedHolds(all, name, j);
    }
  }

  /** The types on top of the stack are the entry's inputs, and none is any or a variable. */
  predicate Exact(inputs: seq<TypeId>, stack: seq<TypeId>) {
    |inputs| <= |stack| && inputs == stack[|stack| - |inputs|..] && forall i | 0 <= i < |inputs| :: inputs[i] < 10
  }

  /** An exact entry is beaten by another exact one or by one with more inputs, never by a
      less specific one of its arity. */
  lemma ExactIsBest(all: seq<DictEntry>, name: string, stack: seq<TypeId>, k: nat, j: nat)
    requires BestNamed(all, name, stack, k) && j < |all| && all[j].name == name && Exact(all[j].signature.inputs, stack)
    ensures |all[j].signature.inputs| <= |all[k].signature.inputs| <= |stack|
    ensures |all[k].signature.inputs| == |all[j].signature.inputs| ==> all[k].signature.inputs == all[j].signature.inputs
  {
    var exact, best := all[j].signature, all[k].signature;
    hide Matches, Total;
    ExactScoresMost(exact, stack);
    ExactScoresMost(best, stack);
    assert j != k ==> Beats(all[k], all[j], stack, j < k);
  }

  lemma ExactIsFound(all: seq<DictEntry>, name: string, stack: seq<TypeId>, j: nat)
    requires j < |all| && all[j].name == name && Exact(all[j].signature.inputs, stack)
    ensures !NoneMatches(Named(all, name), stack)
  {
    if NoneMatches(Named(all, name), stack) {
      NoneOfName(all, name, stack);
      ExactScoresMost(all[j].signature, stack);
    }
  }

  class Dict {
    const hash: string -> nat
    const buckets: array<seq<DictEntry>>
    var entryCount: nat
    ghost var all: seq<DictEntry>  // every entry, newest first

    /** Each chain holds the entries whose names hash to it, newest first. */
    ghost predicate Valid()
      reads this, buckets
    {
      && buckets.Length == INITIAL_BUCKETS && entryCount == |all|
      && forall b | 0 <= b < buckets.Length :: buckets[b] == InBucket(hash, all, b)
    }

    /** dict_create. */
    constructor (hash: string -> nat)
      ensures Valid() && fresh(buckets) && all == [] && this.hash == hash
    {
      this.hash := hash;
      buckets := new seq<DictEntry>[INITIAL_BUCKETS](_ => []);
      entryCount, all := 0, [];
    }

    /** dict_add: at the head of its chain. */
    method Add(name: string, primId: nat, sig: Option<Signature>, isPrimitive: bool, isImmediate: bool)
      requires Valid()
      modifies this, buckets
      ensures Valid()
      ensures var s := if sig.Some? then sig.value else Signature([], []);
        && |all| > 0 && all == [DictEntry(name, primId, s, isPrimitive, isImmediate, all[0].priority)] + old(all)
        && all[0].priority ==
          100 * |set i: nat | i < |s.inputs| && (s.inputs[i] == 1 || s.inputs[i] == 2)| + 10 * |set i: nat | i < |s.inputs| && s.inputs[i] == 10|
    {
      var s := if sig.Some? then sig.value else Signature([], []);
      var priority := 0;
      for i := 0 to |s.inputs|
        invariant priority == Priority(s.inputs[..i])
      {
        assert s.inputs[..i + 1][..i] == s.inputs[..i];
        if s.inputs[i] == TYPE_I64 || s.inputs[i] == TYPE_U64 {
          priority := priority + 100;
        } else if s.inputs[i] == TYPE_ANY {
          priority := priority + 10;
        }
      }
      assert s.inputs[..|s.inputs|] == s.inputs;
      PriorityIs(s.inputs);
      var entry := DictEntry(name, primId, s, isPrimitive, isImmediate, priority);
      var bucket := hash(name) % buckets.Length;
      forall b | 0 <= b < buckets.Length
        ensures InBucket(hash, [entry] + all, b) == if b == bucket then [entry] + InBucket(hash, all, b) else InBucket(hash, all, b)
      {
        AddedToBucket(hash, all, entry, b);
      }
      buckets[bucket] := [entry] + buckets[bucket];
      entryCount, all := entryCount + 1, [entry] + all;
    }

    /** dict_lookup: the newest entry of the name. */
    method Lookup(name: string) returns (found: Option<DictEntry>)
      requires Valid()
      ensures found == if Named(all, name) == [] then None else Some(Named(all, name)[0])
      ensures found.None? ==> forall i | 0 <= i < |all| :: all[i].name != name
      ensures found.Some? ==> exists i: nat ::
        i < |all| && found.value == all[i] && all[i].name == name && forall j | 0 <= j < i :: all[j].name != name
    {
      NewestOfName(all, name);
      var chain := buckets[hash(name) % buckets.Length];
      ChainHasAll(hash, all, name);
      for i := 0 to |chain|
        invariant Named(chain[..i], name) == []
      {
        NamedStep(chain, name, i);
        if chain[i].name == name {
          NamedPrefix(chain, name, i + 1);
          return Some(chain[i]);
        }
      }
      assert chain[..|chain|] == chain;
      return None;
    }

    /** dict_lookup_typed: the best entry of the name. */
    method LookupTyped(name: string, stack: seq<TypeId>) returns (best: Option<DictEntry>)
      requires Valid()
      ensures best.None? ==> forall j | 0 <= j < |all| && all[j].name == name :: Score(all[j].signature, stack) < 0
      ensures best.Some? ==> exists k: nat :: BestNamed(all, name, stack, k) && best.value == all[k]
      ensures forall j | 0 <= j < |all| && all[j].name == name && Exact(all[j].signature.inputs, stack) ::
        best.Some? && |all[j].signature.inputs| <= |best.value.signature.inputs| &&
        (|best.value.signature.inputs| == |all[j].signature.inputs| ==> best.value.signature.inputs == all[j].signature.inputs)
    {
      var chain := buckets[hash(name) % buckets.Length];
      hide Score, Best, NoneMatches;
      ChainHasAll(hash, all, name);
      NoCandidates(stack);
      best := None;
      var bestScore := -1;
      ghost var at: nat := 0;
      for i := 0 to |chain|
        invariant best.None? ==> bestScore == -1 && NoneMatches(Named(chain[..i], name), stack)
        invariant best.Some? ==> at < |Named(chain[..i], name)| && best.value == Named(chain[..i], name)[at]
        invariant best.Some? ==> Best(Named(chain[..i], name), stack, at)
        invariant best.Some? ==> bestScore == Score(best.value.signature, stack)
      {
        var entry := chain[i];
        ghost var before := Named(chain[..i], name);
        NamedStep(chain, name, i);
        if entry.name == name {
          var score := MatchScore(entry.signature, stack);
          OneMoreCandidate(before, entry, stack, at, best.Some?);
          if score > bestScore {
            best, bestScore, at := Some(entry), score, |before|;
          } else if score == bestScore && best.Some? {
            if entry.priority > best.value.priority {
              best, at := Some(entry), |before|;
            }
          }
        }
      }
      assert chain[..|chain|] == chain;
      Chosen(all, name, stack, best, at);
    }
  }

  /** What the scan of a chain means for the dictionary. */
  lemma Chosen(all: seq<DictEntry>, name: string, stack: seq<TypeId>, best: Option<DictEntry>, at: nat)
    requires best.None? ==> NoneMatches(Named(all, name), stack)
    requires best.Some? ==> Best(Named(all, name), stack, at) && best.value == Named(all, name)[at]
    ensures best.None? ==> forall j | 0 <= j < |all| && all[j].name == name :: Score(all[j].signature, stack) < 0
    ensures best.Some? ==> exists k: nat :: BestNamed(all, name, stack, k) && best.value == all[k]
    ensures forall j | 0 <= j < |all| && all[j].name == name && Exact(all[j].signature.inputs, stack) ::
      best.Some? && |all[j].signature.inputs| <= |best.value.signature.inputs| &&
      (|best.value.signature.inputs| == |all[j].signature.inputs| ==> best.value.signature.inputs == all[j].signature.inputs)
  {
    hide Score, Best, NoneMatches, BestNamed;
    var k: nat := 0;
    if best.Some? {
      k := BestOfName(all, name, stack, at);
    } else {
      NoneOfName(all, name, stack);
    }
    forall j | 0 <= j < |all| && all[j].name == name && Exact(all[j].signature.inputs, stack)
      ensures best.Some? && |all[j].signature.inputs| <= |best.value.signature.inputs|
      ensures |best.value.signature.inputs| == |all[j].signature.inputs| ==> best.value.signature.inputs == all[j].signature.inputs
    {
      ExactIsFound(all, name, stack, j);
      if best.Some? {
        ExactIsBest(all, name, stack, k, j);
      }
    }
  }

  function InBucket(hash: string -> nat, entries: seq<DictEntry>, b: nat): seq<DictEntry> {
    if entries == [] then []
    else if hash(entries[0].name) % INITIAL_BUCKETS == b then [entries[0]] + InBucket(hash, entries[1..], b)
    else InBucket(hash, entries[1..], b)
  }

  lemma AddedToBucket(hash: string -> nat, entries: seq<DictEntry>, e: DictEntry, b: nat)
    ensures InBucket(hash, [e] + entries, b) ==
      if hash(e.name) % INITIAL_BUCKETS == b then [e] + InBucket(hash, entries, b) else InBucket(hash, entries, b)
  {
    assert ([e] + entries)[1..] == entries;
  }

  lemma NamedStep(chain: seq<DictEntry>, name: string, i: nat)
    requires i < |chain|
    ensures Named(chain[..i + 1], name) == Named(chain[..i], name) + if chain[i].name == name then [chain[i]] else []
  {
    assert chain[..i + 1][..i] == chain[..i];
  }

  lemma {:induction false} NamedPrefix(chain: seq<DictEntry>, name: string, i: nat)
    requires i <= |chain|
    ensures Named(chain[..i], name) <= Named(chain, name)
    decreases |chain| - i
  {
    if i < |chain| {
      NamedStep(chain, name, i);
      NamedPrefix(chain, name, i + 1);
    } else {
      assert chain[..i] == chain;
    }
  }

  lemma {:induction false} NamedFront(e: DictEntry, chain: seq<DictEntry>, name: string)
    ensures Named([e] + chain, name) == (if e.name == name then [e] else []) + Named(chain, name)
  {
    var more := [e] + chain;
    if chain == [] {
      assert more[..0] == [];
    } else {
      var n := |chain| - 1;
      assert more[..|more| - 1] == [e] + chain[..n];
      NamedFront(e, chain[..n], name);
    }
  }

  /** A name's chain holds all entries of the name, in order. */
  lemma {:induction false} ChainHasAll(hash: string -> nat, entries: seq<DictEntry>, name: string)
    ensures Named(InBucket(hash, entries, hash(name) % INITIAL_BUCKETS), name) == Named(entries, name)
  {
    if entries != [] {
      var rest := InBucket(hash, entries[1..], hash(name) % INITIAL_BUCKETS);
      ChainHasAll(hash, entries[1..], name);
      NamedFront(entries[0], rest, name);
      NamedFront(entries[0], entries[1..], name);
      assert entries == [entries[0]] + entries[1..];
    }
  }
}
