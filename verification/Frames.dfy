/** Programs that leave the return stack to the control words: no primitive that moves
    values there, and the loop counter read only inside a loop of the same word. */
module Frames {
  import opened Words
  import opened Language
  import P = Primitives

  predicate Tidy(p: Prog, inLoop: bool) {
    match p
    case End => true
    case Then(s, rest) => TidyStmt(s, inLoop) && Tidy(rest, inLoop)
  }

  predicate TidyStmt(s: Stmt, inLoop: bool) {
    match s
    case Lit(_) => true
    case Prim(id) => !(P.TOR <= id <= P.RDROP) && (id == P.I0 ==> inLoop)
    case Call(body) => Tidy(body, false)
    case If(yes, no) => Tidy(yes, inLoop) && Tidy(no, inLoop)
    case Times(body) => Tidy(body, true)
    case Until(cond, body) => Tidy(cond, inLoop) && Tidy(body, inLoop)
  }

  /** Every primitive a program names, in whatever depth. */
  function Names(p: Prog): set<nat> {
    match p
    case End => {}
    case Then(s, rest) => NamesOf(s) + Names(rest)
  }

  function NamesOf(s: Stmt): set<nat> {
    match s
    case Lit(_) => {}
    case Prim(id) => {id as nat}
    case Call(body) => Names(body)
    case If(yes, no) => Names(yes) + Names(no)
    case Times(body) => Names(body)
    case Until(cond, body) => Names(cond) + Names(body)
  }

  /** A program that names none of >r, r>, r@, rdrop (34 to 37) and i0 (43) is tidy, and none
      that names one of the first four is. */
  lemma {:induction false} TidyByNames(p: Prog, inLoop: bool)
    ensures Names(p) !! {34, 35, 36, 37, 43} ==> Tidy(p, inLoop)
    ensures Tidy(p, inLoop) ==> Names(p) !! {34, 35, 36, 37}
    decreases p, 0
  {
    if p.Then? {
      TidyStmtByNames(p.first, inLoop);
      TidyByNames(p.rest, inLoop);
    }
  }

  lemma {:induction false} TidyStmtByNames(s: Stmt, inLoop: bool)
    ensures NamesOf(s) !! {34, 35, 36, 37, 43} ==> TidyStmt(s, inLoop)
    ensures TidyStmt(s, inLoop) ==> NamesOf(s) !! {34, 35, 36, 37}
    decreases s, 1
  {
    match s
    case Lit(_) =>
    case Prim(_) =>
    case Call(body) => TidyByNames(body, false);
    case If(yes, no) =>
      TidyByNames(yes, inLoop);
      TidyByNames(no, inLoop);
    case Times(body) => TidyByNames(body, true);
    case Until(cond, body) =>
      TidyByNames(cond, inLoop);
      TidyByNames(body, inLoop);
  }

  /** The return stack is as it was, and nothing below the frame was read. */
  predicate Kept(o: Outcome, rs: seq<Word>) {
    !o.Escape? && (o.Done? ==> o.rs == rs)
  }

  /** A tidy program restores the return stack, whatever it does and however long. */
  lemma {:induction false} TidyKeeps(p: Prog, inLoop: bool, ds: seq<Word>, rs: seq<Word>, fuel: nat)
    requires Tidy(p, inLoop) && (inLoop ==> rs != [])
    ensures Kept(Eval(p, ds, rs, fuel), rs)
    decreases fuel, p, 0
  {
    match p
    case End =>
    case Then(s, rest) =>
      TidyStmtKeeps(s, inLoop, ds, rs, fuel);
      var o := EvalStmt(s, ds, rs, fuel);
      if o.Done? {
        TidyKeeps(rest, inLoop, o.ds, o.rs, fuel);
      }
  }

  lemma {:induction false} TidyStmtKeeps(s: Stmt, inLoop: bool, ds: seq<Word>, rs: seq<Word>, fuel: nat)
    requires TidyStmt(s, inLoop) && (inLoop ==> rs != [])
    ensures Kept(EvalStmt(s, ds, rs, fuel), rs)
    decreases fuel, s, 1
  {
    match s
    case Lit(_) =>
    case Prim(_) =>
    case Call(body) => TidyKeeps(body, false, ds, [], fuel);
    case If(yes, no) =>
      if |ds| > 0 {
        TidyKeeps(if ds[0] != 0 then yes else no, inLoop, ds[1..], rs, fuel);
      }
    case Times(_) =>
      if |ds| > 0 {
        assert ([ds[0]] + rs)[1..] == rs;
        TidyTimesKeeps(s, ds[1..], [ds[0]] + rs, fuel);
      }
    case Until(_, _) => TidyUntilKeeps(s, inLoop, ds, rs, fuel);
  }

  lemma {:induction false} TidyTimesKeeps(s: Stmt, ds: seq<Word>, rs: seq<Word>, fuel: nat)
    requires s.Times? && Tidy(s.body, true) && rs != []
    ensures Kept(TimesLoop(s, ds, rs, fuel), rs[1..])
    decreases fuel, s, 0
  {
    if rs[0] != 0 && fuel > 0 {
      var rs' := [ToWord(rs[0] - 1)] + rs[1..];
      assert rs'[1..] == rs[1..];
      TidyKeeps(s.body, true, ds, rs', fuel);
      var o := Eval(s.body, ds, rs', fuel);
      if o.Done? {
        TidyTimesKeeps(s, o.ds, o.rs, fuel - 1);
      }
    }
  }

  lemma {:induction false} TidyUntilKeeps(s: Stmt, inLoop: bool, ds: seq<Word>, rs: seq<Word>, fuel: nat)
    requires s.Until? && Tidy(s.cond, inLoop) && Tidy(s.body, inLoop) && (inLoop ==> rs != [])
    ensures Kept(UntilLoop(s, ds, rs, fuel), rs)
    decreases fuel, s, 0
  {
    if fuel > 0 {
      TidyKeeps(s.body, inLoop, ds, rs, fuel);
      var r := Eval(s.body, ds, rs, fuel);
      if r.Done? {
        TidyKeeps(s.cond, inLoop, r.ds, rs, fuel);
        var c := Eval(s.cond, r.ds, rs, fuel);
        if c.Done? && |c.ds| > 0 && c.ds[0] == 0 {
          TidyUntilKeeps(s, inLoop, c.ds[1..], rs, fuel - 1);
        }
      }
    }
  }

  // ----- The counted loop -----

  /** n ( body ) times ends with these stacks. */
  ghost predicate CountsTo(body: Prog, n: Word, ds: seq<Word>, rs: seq<Word>, result: seq<Word>) {
    exists fuel: nat :: EvalStmt(Times(body), [n] + ds, rs, fuel) == Done(result, rs)
  }

  /** The body runs n times, with n-1, ..., 0 in i0, and leads from the one stack to the other. */
  ghost predicate Countdown(body: Prog, n: Word, ds: seq<Word>, rs: seq<Word>, result: seq<Word>) {
    exists stacks: seq<seq<Word>>, fuel: nat :: Turns(body, n, rs, stacks, fuel) && stacks[0] == ds && stacks[n] == result
  }

  /** A counted loop with a tidy body is exactly its countdown, and the counter is gone. */
  lemma TidyTimesCountsDown(body: Prog, n: Word, ds: seq<Word>, rs: seq<Word>, result: seq<Word>)
    requires Tidy(body, true)
    ensures CountsTo(body, n, ds, rs, result) <==> Countdown(body, n, ds, rs, result)
    ensures forall fuel: nat :: Kept(EvalStmt(Times(body), [n] + ds, rs, fuel), rs)
  {
    if CountsTo(body, n, ds, rs, result) {
      var fuel: nat :| EvalStmt(Times(body), [n] + ds, rs, fuel) == Done(result, rs);
      TidyNeutral(body, rs);
      var stacks := TimesOnlyCountsDown(body, n, ds, rs, fuel);
      assert Turns(body, n, rs, stacks, fuel) && stacks[0] == ds && stacks[n] == result;
    }
    if Countdown(body, n, ds, rs, result) {
      var stacks: seq<seq<Word>>, fuel: nat :| Turns(body, n, rs, stacks, fuel) && stacks[0] == ds && stacks[n] == result;
      TimesCountsDown(body, n, ds, rs, stacks, fuel);
    }
    forall fuel: nat
      ensures Kept(EvalStmt(Times(body), [n] + ds, rs, fuel), rs)
    {
      TidyStmtKeeps(Times(body), false, [n] + ds, rs, fuel);
    }
  }

  lemma TidyNeutral(body: Prog, rs: seq<Word>)
    requires Tidy(body, true)
    ensures Neutral(body, rs)
  {
    forall k: Word, ds, fuel: nat | Eval(body, ds, [k] + rs, fuel).Done?
      ensures Eval(body, ds, [k] + rs, fuel).rs == [k] + rs
    {
      TidyKeeps(body, true, ds, [k] + rs, fuel);
    }
  }
}
