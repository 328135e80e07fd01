/** March programs after parsing: quotations have been attached to the control word
    that consumes them, and a call carries the body it was specialised from. */
module Language {
  import opened Words
  import opened Blob
  import P = Primitives

  datatype Stmt =
    | Lit(n: Int64)
    | Prim(id: U16)
    | Call(body: Prog)
    | If(yes: Prog, no: Prog)
    | Times(body: Prog)
    | Until(cond: Prog, body: Prog)

  datatype Prog = End | Then(first: Stmt, rest: Prog)

  /** The result of running code in a frame: the data stack and the frame's own part of
      the return stack. Trap and Escape are as for primitives; Timeout says that the
      given number of loop turns was not enough. */
  datatype Outcome =
    | Done(ds: seq<Word>, rs: seq<Word>)
    | Trap
    | Escape
    | Timeout

  function OfEffect(e: P.Effect): Outcome {
    match e
    case Ok(ds, rs) => Done(ds, rs)
    case Trap => Trap
    case Escape => Escape
  }

  /** Big-step meaning. The fuel bounds the turns of nested loops, nothing else. */
  ghost function Eval(p: Prog, ds: seq<Word>, rs: seq<Word>, fuel: nat): Outcome
    decreases fuel, p, 0
  {
    match p
    case End => Done(ds, rs)
    case Then(s, rest) =>
      match EvalStmt(s, ds, rs, fuel)
      case Done(ds', rs') => Eval(rest, ds', rs', fuel)
      case Trap => Trap
      case Escape => Escape
      case Timeout => Timeout
  }

  ghost function EvalStmt(s: Stmt, ds: seq<Word>, rs: seq<Word>, fuel: nat): Outcome
    decreases fuel, s, 1
  {
    match s
    case Lit(n) => Done([ToWord(n)] + ds, rs)
    case Prim(id) => OfEffect(P.Effects(id, ds, rs))
    case Call(body) =>
      var r := Eval(body, ds, [], fuel);
      if !r.Done? then r
      else if r.rs != [] then Escape  // the callee would return through its own leftovers
      else Done(r.ds, rs)
    case If(yes, no) =>
      if |ds| == 0 then Trap
      else Eval(if ds[0] != 0 then yes else no, ds[1..], rs, fuel)
    case Times(_) =>
      if |ds| == 0 then Trap else TimesLoop(s, ds[1..], [ds[0]] + rs, fuel)
    case Until(_, _) => UntilLoop(s, ds, rs, fuel)
  }

  /** The counted loop from its head on: the counter is on the return stack. */
  ghost function TimesLoop(s: Stmt, ds: seq<Word>, rs: seq<Word>, fuel: nat): Outcome
    requires s.Times?
    decreases fuel, s, 0
  {
    if |rs| == 0 then Escape
    else if rs[0] == 0 then Done(ds, rs[1..])
    else if fuel == 0 then Timeout
    else
      var r := Eval(s.body, ds, [ToWord(rs[0] - 1)] + rs[1..], fuel);
      if r.Done? then TimesLoop(s, r.ds, r.rs, fuel - 1) else r
  }

  /** The until loop: body, condition, and again while the condition leaves zero. */
  ghost function UntilLoop(s: Stmt, ds: seq<Word>, rs: seq<Word>, fuel: nat): Outcome
    requires s.Until?
    decreases fuel, s, 0
  {
    if fuel == 0 then Timeout else
    var r := Eval(s.body, ds, rs, fuel);
    if !r.Done? then r else
    var c := Eval(s.cond, r.ds, r.rs, fuel);
    if !c.Done? then c
    else if |c.ds| == 0 then Trap
    else if c.ds[0] != 0 then Done(c.ds[1..], c.rs)
    else UntilLoop(s, c.ds[1..], c.rs, fuel - 1)
  }

  // ----- More fuel never changes an answer -----

  lemma {:induction false} EvalFuel(p: Prog, ds: seq<Word>, rs: seq<Word>, fuel: nat, more: nat)
    requires fuel <= more && !Eval(p, ds, rs, fuel).Timeout?
    ensures Eval(p, ds, rs, more) == Eval(p, ds, rs, fuel)
    decreases fuel, p, 0
  {
    match p
    case End =>
    case Then(s, rest) =>
      EvalStmtFuel(s, ds, rs, fuel, more);
      match EvalStmt(s, ds, rs, fuel)
      case Done(ds', rs') => EvalFuel(rest, ds', rs', fuel, more);
      case _ =>
  }

  lemma {:induction false} EvalStmtFuel(s: Stmt, ds: seq<Word>, rs: seq<Word>, fuel: nat, more: nat)
    requires fuel <= more && !EvalStmt(s, ds, rs, fuel).Timeout?
    ensures EvalStmt(s, ds, rs, more) == EvalStmt(s, ds, rs, fuel)
    decreases fuel, s, 1
  {
    match s
    case Lit(_) =>
    case Prim(_) =>
    case Call(body) => EvalFuel(body, ds, [], fuel, more);
    case If(yes, no) =>
      if |ds| > 0 {
        EvalFuel(if ds[0] != 0 then yes else no, ds[1..], rs, fuel, more);
      }
    case Times(_) =>
      if |ds| > 0 {
        TimesFuel(s, ds[1..], [ds[0]] + rs, fuel, more);
      }
    case Until(_, _) => UntilFuel(s, ds, rs, fuel, more);
  }

  lemma {:induction false} TimesFuel(s: Stmt, ds: seq<Word>, rs: seq<Word>, fuel: nat, more: nat)
    requires s.Times? && fuel <= more && !TimesLoop(s, ds, rs, fuel).Timeout?
    ensures TimesLoop(s, ds, rs, more) == TimesLoop(s, ds, rs, fuel)
    decreases fuel, s, 0
  {
    if |rs| > 0 && rs[0] != 0 {
      var rs' := [ToWord(rs[0] - 1)] + rs[1..];
      EvalFuel(s.body, ds, rs', fuel, more);
      var r := Eval(s.body, ds, rs', fuel);
      if r.Done? {
        TimesFuel(s, r.ds, r.rs, fuel - 1, more - 1);
      }
    }
  }

  lemma {:induction false} UntilFuel(s: Stmt, ds: seq<Word>, rs: seq<Word>, fuel: nat, more: nat)
    requires s.Until? && fuel <= more && !UntilLoop(s, ds, rs, fuel).Timeout?
    ensures UntilLoop(s, ds, rs, more) == UntilLoop(s, ds, rs, fuel)
    decreases fuel, s, 0
  {
    EvalFuel(s.body, ds, rs, fuel, more);
    var r := Eval(s.body, ds, rs, fuel);
    if r.Done? {
      EvalFuel(s.cond, r.ds, r.rs, fuel, more);
      var c := Eval(s.cond, r.ds, r.rs, fuel);
      if c.Done? && |c.ds| > 0 && c.ds[0] == 0 {
        UntilFuel(s, c.ds[1..], c.rs, fuel - 1, more - 1);
      }
    }
  }

  // ----- What the counted loop promises -----

  /** The data stacks a body makes when it is run with the counter at k, k-1, ..., 0,
      each run starting from the stack the one before left. */
  ghost predicate Turns(body: Prog, k: nat, rs: seq<Word>, stacks: seq<seq<Word>>, fuel: nat)
  {
    |stacks| == k + 1 && k < TWO_64 &&
    forall j | 0 <= j < k ::
      Eval(body, stacks[j], [k - 1 - j] + rs, fuel) == Done(stacks[j + 1], [k - 1 - j] + rs)
  }

  /** n ( body ) times, where each run leaves the return stack as it found it: the body
      runs n times, seeing n-1, ..., 0 in i0, and the counter is gone at the end. */
  lemma {:induction false} TimesCountsDown(body: Prog, n: nat, ds: seq<Word>, rs: seq<Word>,
                                          stacks: seq<seq<Word>>, fuel: nat)
    requires Turns(body, n, rs, stacks, fuel) && stacks[0] == ds
    ensures EvalStmt(Times(body), [n] + ds, rs, fuel + n) == Done(stacks[n], rs)
  {
    assert ([n] + ds)[1..] == ds;
    TimesLoopCountsDown(body, n, rs, stacks, fuel);
  }

  lemma {:induction false} TimesLoopCountsDown(body: Prog, n: nat, rs: seq<Word>,
                                              stacks: seq<seq<Word>>, fuel: nat)
    requires Turns(body, n, rs, stacks, fuel)
    ensures TimesLoop(Times(body), stacks[0], [n] + rs, fuel + n) == Done(stacks[n], rs)
  {
    assert ([n] + rs)[1..] == rs;
    if n > 0 {
      assert Eval(body, stacks[0], [n - 1] + rs, fuel) == Done(stacks[1], [n - 1] + rs);
      EvalFuel(body, stacks[0], [n - 1] + rs, fuel, fuel + n);
      var later := stacks[1..];
      forall j | 0 <= j < n - 1
        ensures Eval(body, later[j], [n - 2 - j] + rs, fuel) == Done(later[j + 1], [n - 2 - j] + rs)
      {
        assert later[j] == stacks[j + 1] && later[j + 1] == stacks[j + 2];
      }
      TimesLoopCountsDown(body, n - 1, rs, later, fuel);
      assert ToWord(n - 1) == n - 1;
    }
  }

  /** Whenever the body ends, the return stack is as it was, counter included. */
  ghost predicate Neutral(body: Prog, rs: seq<Word>) {
    forall k: Word, ds, fuel: nat | Eval(body, ds, [k] + rs, fuel).Done? ::
      Eval(body, ds, [k] + rs, fuel).rs == [k] + rs
  }

  /** And this is the only way a counted loop ends. */
  lemma {:induction false} TimesOnlyCountsDown(body: Prog, n: Word, ds: seq<Word>, rs: seq<Word>, fuel: nat)
    returns (stacks: seq<seq<Word>>)
    requires Neutral(body, rs) && EvalStmt(Times(body), [n] + ds, rs, fuel).Done?
    ensures Turns(body, n, rs, stacks, fuel) && stacks[0] == ds
    ensures EvalStmt(Times(body), [n] + ds, rs, fuel) == Done(stacks[n], rs)
  {
    assert ([n] + ds)[1..] == ds;
    stacks := TimesLoopOnlyCountsDown(body, n, ds, rs, fuel);
  }

  lemma {:induction false} TimesLoopOnlyCountsDown(body: Prog, n: Word, ds: seq<Word>, rs: seq<Word>, fuel: nat)
    returns (stacks: seq<seq<Word>>)
    requires Neutral(body, rs) && TimesLoop(Times(body), ds, [n] + rs, fuel).Done?
    ensures Turns(body, n, rs, stacks, fuel) && stacks[0] == ds
    ensures TimesLoop(Times(body), ds, [n] + rs, fuel) == Done(stacks[n], rs)
    decreases fuel
  {
    assert ([n] + rs)[1..] == rs;
    if n == 0 {
      stacks := [ds];
    } else {
      assert ToWord(n - 1) == n - 1;
      var r := Eval(body, ds, [n - 1] + rs, fuel);
      var later := TimesLoopOnlyCountsDown(body, n - 1, r.ds, rs, fuel - 1);
      stacks := [ds] + later;
      forall j | 0 <= j < n
        ensures Eval(body, stacks[j], [n - 1 - j] + rs, fuel) == Done(stacks[j + 1], [n - 1 - j] + rs)
      {
        if j > 0 {
          assert Eval(body, later[j - 1], [n - 1 - j] + rs, fuel - 1) == Done(later[j], [n - 1 - j] + rs);
          EvalFuel(body, later[j - 1], [n - 1 - j] + rs, fuel - 1, fuel);
        }
      }
    }
  }

  // ----- What the until loop promises -----

  /** One round: the body, then the condition. */
  ghost function Round(s: Stmt, ds: seq<Word>, rs: seq<Word>, fuel: nat): Outcome
    requires s.Until?
  {
    match Eval(s.body, ds, rs, fuel)
    case Done(ds', rs') => Eval(s.cond, ds', rs', fuel)
    case o => o
  }

  datatype Stacks = Stacks(ds: seq<Word>, rs: seq<Word>)

  /** k rounds in a row leave zero and go on from what is below it. */
  ghost predicate Rounds(s: Stmt, k: nat, path: seq<Stacks>, fuel: nat)
    requires s.Until?
  {
    |path| == k + 1 &&
    forall j | 0 <= j < k :: Round(s, path[j].ds, path[j].rs, fuel) == Done([0] + path[j + 1].ds, path[j + 1].rs)
  }

  /** The loop ends exactly after the first round whose condition leaves a non-zero flag. */
  lemma {:induction false} UntilStopsAtNonZero(s: Stmt, k: nat, path: seq<Stacks>, flag: Word, end: Stacks, fuel: nat)
    requires s.Until? && Rounds(s, k, path, fuel) && flag != 0
    requires Round(s, path[k].ds, path[k].rs, fuel) == Done([flag] + end.ds, end.rs)
    ensures UntilLoop(s, path[0].ds, path[0].rs, fuel + k + 1) == Done(end.ds, end.rs)
    decreases k
  {
    if k > 0 {
      assert Round(s, path[0].ds, path[0].rs, fuel) == Done([0] + path[1].ds, path[1].rs);
    }
    RoundFuel(s, path[0].ds, path[0].rs, fuel, fuel + k + 1);
    assert ([flag] + end.ds)[1..] == end.ds;
    if k > 0 {
      var later := path[1..];
      assert ([0] + path[1].ds)[1..] == path[1].ds;
      forall j | 0 <= j < k - 1
        ensures Round(s, later[j].ds, later[j].rs, fuel) == Done([0] + later[j + 1].ds, later[j + 1].rs)
      {
        assert later[j] == path[j + 1] && later[j + 1] == path[j + 2];
      }
      UntilStopsAtNonZero(s, k - 1, later, flag, end, fuel);
    }
  }

  lemma RoundFuel(s: Stmt, ds: seq<Word>, rs: seq<Word>, fuel: nat, more: nat)
    requires s.Until? && fuel <= more && !Round(s, ds, rs, fuel).Timeout?
    ensures Round(s, ds, rs, more) == Round(s, ds, rs, fuel)
  {
    EvalFuel(s.body, ds, rs, fuel, more);
    var o := Eval(s.body, ds, rs, fuel);
    if o.Done? {
      EvalFuel(s.cond, o.ds, o.rs, fuel, more);
    }
  }

  lemma {:induction false} UntilOnlyStopsAtNonZero(s: Stmt, ds: seq<Word>, rs: seq<Word>, fuel: nat)
    returns (path: seq<Stacks>, flag: Word)
    requires s.Until? && UntilLoop(s, ds, rs, fuel).Done?
    ensures path != [] && path[0] == Stacks(ds, rs) && Rounds(s, |path| - 1, path, fuel) && flag != 0
    ensures var last, end := path[|path| - 1], UntilLoop(s, ds, rs, fuel);
      Round(s, last.ds, last.rs, fuel) == Done([flag] + end.ds, end.rs)
    decreases fuel
  {
    var c := Round(s, ds, rs, fuel);
    assert [c.ds[0]] + c.ds[1..] == c.ds;
    if c.ds[0] != 0 {
      path, flag := [Stacks(ds, rs)], c.ds[0];
    } else {
      var later, f := UntilOnlyStopsAtNonZero(s, c.ds[1..], c.rs, fuel - 1);
      path, flag := [Stacks(ds, rs)] + later, f;
      forall j | 0 <= j < |path|
        ensures j > 0 ==> Round(s, path[j].ds, path[j].rs, fuel) == Round(s, path[j].ds, path[j].rs, fuel - 1)
      {
        if j > 0 {
          assert path[j] == later[j - 1];
          if j < |path| - 1 {
            assert Round(s, later[j - 1].ds, later[j - 1].rs, fuel - 1) == Done([0] + later[j].ds, later[j].rs);
          }
          RoundFuel(s, path[j].ds, path[j].rs, fuel - 1, fuel);
        }
      }
    }
  }
}
