/** Laws of the language: control words in terms of one another, and the counter loop. */
module LanguageLaws {
  import opened Words
  import opened Language
  import opened Frames
  import PL = PrimitiveLaws

  // ----- One program after another -----

  function Append(p: Prog, q: Prog): Prog {
    match p
    case End => q
    case Then(s, rest) => Then(s, Append(rest, q))
  }

  /** Where the first program ends, the second begins. */
  ghost function Continue(o: Outcome, q: Prog, fuel: nat): Outcome {
    if o.Done? then Eval(q, o.ds, o.rs, fuel) else o
  }

  lemma {:induction false} AppendRuns(p: Prog, q: Prog, ds: seq<Word>, rs: seq<Word>, fuel: nat)
    ensures Eval(Append(p, q), ds, rs, fuel) == Continue(Eval(p, ds, rs, fuel), q, fuel)
    decreases p
  {
    match p
    case End =>
    case Then(s, rest) =>
      var o := EvalStmt(s, ds, rs, fuel);
      if o.Done? {
        AppendRuns(rest, q, o.ds, o.rs, fuel);
      }
  }

  /** if on a non-zero flag is its first quotation in its place, on zero its second; without
      a flag it traps. */
  lemma IfLaw(yes: Prog, no: Prog, rest: Prog, flag: Word, ds: seq<Word>, rs: seq<Word>, fuel: nat)
    ensures flag != 0 ==> Eval(Then(If(yes, no), rest), [flag] + ds, rs, fuel) == Eval(Append(yes, rest), ds, rs, fuel)
    ensures flag == 0 ==> Eval(Then(If(yes, no), rest), [flag] + ds, rs, fuel) == Eval(Append(no, rest), ds, rs, fuel)
    ensures Eval(Then(If(yes, no), rest), [], rs, fuel) == Trap
  {
    assert ([flag] + ds)[1..] == ds;
    AppendRuns(yes, rest, ds, rs, fuel);
    AppendRuns(no, rest, ds, rs, fuel);
  }

  /** A number goes on the data stack, modulo 2^64. */
  lemma LitLaw(n: Int64, rest: Prog, ds: seq<Word>, rs: seq<Word>, fuel: nat) returns (w: Word)
    ensures Eval(Then(Lit(n), rest), ds, rs, fuel) == Eval(rest, [w] + ds, rs, fuel)
    ensures w == if n >= 0 then n else n + 0x1_0000_0000_0000_0000
  {
    w := ToWord(n);
    if n < 0 {
      assert (n + 0x1_0000_0000_0000_0000) % 0x1_0000_0000_0000_0000 == n + 0x1_0000_0000_0000_0000;
    }
  }

  // ----- What lies below does not matter -----

  /** The same but for the rest of the return stack. */
  predicate SameBut(o: Outcome, o': Outcome) {
    match o
    case Done(ds, _) => o'.Done? && o'.ds == ds
    case _ => o' == o
  }

  /** Stacks with the same counter on top, as far as a loop body may look. */
  predicate SameTop(inLoop: bool, rs: seq<Word>, rs': seq<Word>) {
    inLoop ==> rs != [] && rs' != [] && rs[0] == rs'[0]
  }

  lemma {:induction false} TidyFrame(p: Prog, inLoop: bool, ds: seq<Word>, rs: seq<Word>, rs': seq<Word>, fuel: nat)
    requires Tidy(p, inLoop) && SameTop(inLoop, rs, rs')
    ensures SameBut(Eval(p, ds, rs, fuel), Eval(p, ds, rs', fuel))
    decreases fuel, p, 0
  {
    match p
    case End =>
    case Then(s, rest) =>
      TidyStmtFrame(s, inLoop, ds, rs, rs', fuel);
      TidyStmtKeeps(s, inLoop, ds, rs, fuel);
      TidyStmtKeeps(s, inLoop, ds, rs', fuel);
      var o := EvalStmt(s, ds, rs, fuel);
      if o.Done? {
        TidyFrame(rest, inLoop, o.ds, rs, rs', fuel);
      }
  }

  lemma {:induction false} TidyStmtFrame(s: Stmt, inLoop: bool, ds: seq<Word>, rs: seq<Word>, rs': seq<Word>, fuel: nat)
    requires TidyStmt(s, inLoop) && SameTop(inLoop, rs, rs')
    ensures SameBut(EvalStmt(s, ds, rs, fuel), EvalStmt(s, ds, rs', fuel))
    decreases fuel, s, 1
  {
    match s
    case Lit(_) =>
    case Prim(_) =>
    case Call(_) =>
    case If(yes, no) =>
      if |ds| > 0 {
        TidyFrame(if ds[0] != 0 then yes else no, inLoop, ds[1..], rs, rs', fuel);
      }
    case Times(_) =>
      if |ds| > 0 {
        TidyTimesFrame(s, ds[1..], [ds[0]] + rs, [ds[0]] + rs', fuel);
      }
    case Until(_, _) => TidyUntilFrame(s, inLoop, ds, rs, rs', fuel);
  }

  lemma {:induction false} TidyTimesFrame(s: Stmt, ds: seq<Word>, rs: seq<Word>, rs': seq<Word>, fuel: nat)
    requires s.Times? && Tidy(s.body, true) && SameTop(true, rs, rs')
    ensures SameBut(TimesLoop(s, ds, rs, fuel), TimesLoop(s, ds, rs', fuel))
    decreases fuel, s, 0
  {
    if rs[0] != 0 && fuel > 0 {
      var next, next' := [ToWord(rs[0] - 1)] + rs[1..], [ToWord(rs[0] - 1)] + rs'[1..];
      TidyFrame(s.body, true, ds, next, next', fuel);
      TidyKeeps(s.body, true, ds, next, fuel);
      TidyKeeps(s.body, true, ds, next', fuel);
      var o := Eval(s.body, ds, next, fuel);
      if o.Done? {
        TidyTimesFrame(s, o.ds, next, next', fuel - 1);
      }
    }
  }

  lemma {:induction false} TidyUntilFrame(s: Stmt, inLoop: bool, ds: seq<Word>, rs: seq<Word>, rs': seq<Word>, fuel: nat)
    requires s.Until? && Tidy(s.cond, inLoop) && Tidy(s.body, inLoop) && SameTop(inLoop, rs, rs')
    ensures SameBut(UntilLoop(s, ds, rs, fuel), UntilLoop(s, ds, rs', fuel))
    decreases fuel, s, 0
  {
    if fuel > 0 {
      TidyFrame(s.body, inLoop, ds, rs, rs', fuel);
      TidyKeeps(s.body, inLoop, ds, rs, fuel);
      TidyKeeps(s.body, inLoop, ds, rs', fuel);
      var r := Eval(s.body, ds, rs, fuel);
      if r.Done? {
        TidyFrame(s.cond, inLoop, r.ds, rs, rs', fuel);
        TidyKeeps(s.cond, inLoop, r.ds, rs, fuel);
        TidyKeeps(s.cond, inLoop, r.ds, rs', fuel);
        var c := Eval(s.cond, r.ds, rs, fuel);
        if c.Done? && |c.ds| > 0 && c.ds[0] == 0 {
          TidyUntilFrame(s, inLoop, c.ds[1..], rs, rs', fuel - 1);
        }
      }
    }
  }

  /** Calling a tidy word is writing its body in its place. */
  lemma CallLaw(body: Prog, rest: Prog, ds: seq<Word>, rs: seq<Word>, fuel: nat)
    requires Tidy(body, false)
    ensures Eval(Then(Call(body), rest), ds, rs, fuel) == Eval(Append(body, rest), ds, rs, fuel)
  {
    AppendRuns(body, rest, ds, rs, fuel);
    TidyFrame(body, false, ds, [], rs, fuel);
    TidyKeeps(body, false, ds, [], fuel);
    TidyKeeps(body, false, ds, rs, fuel);
  }

  // ----- The counter -----

  const READ_COUNTER: Prog := Then(Prim(43), End)

  /** i0 pushes what is on top of the return stack and leaves it there. */
  lemma CounterLaw(body: Prog, ds: seq<Word>, k: Word, rs: seq<Word>, fuel: nat)
    ensures Eval(Then(Prim(43), body), ds, [k] + rs, fuel) == Eval(body, [k] + ds, [k] + rs, fuel)
  {
    PL.ReturnStackLaw(k, ds, rs);
  }

  /** n-j, ..., n-1: what n ( i0 ) times has pushed after j turns, the last on top. */
  function CountedDown(n: Word, j: nat): seq<Word>
    requires j <= n
  {
    seq(j, i requires 0 <= i < j => n - j + i)
  }

  /** n ( i0 ) times leaves 0, 1, ..., n-1, with 0 on top, and no counter. */
  lemma CounterLoop(n: Word, ds: seq<Word>, rs: seq<Word>)
    ensures EvalStmt(Times(READ_COUNTER), [n] + ds, rs, n) == Done(seq(n, i requires 0 <= i < n => i) + ds, rs)
  {
    var stacks := seq(n + 1, j requires 0 <= j < n + 1 => CountedDown(n, j) + ds);
    forall j | 0 <= j < n
      ensures Eval(READ_COUNTER, stacks[j], [n - 1 - j] + rs, 0) == Done(stacks[j + 1], [n - 1 - j] + rs)
    {
      CounterLaw(End, stacks[j], n - 1 - j, rs, 0);
      assert [n - 1 - j] + CountedDown(n, j) == CountedDown(n, j + 1);
      assert [n - 1 - j] + stacks[j] == stacks[j + 1];
    }
    assert stacks[0] == ds;
    assert Turns(READ_COUNTER, n, rs, stacks, 0);
    TimesCountsDown(READ_COUNTER, n, ds, rs, stacks, 0);
    assert stacks[n] == seq(n, i requires 0 <= i < n => i) + ds;
  }
}
