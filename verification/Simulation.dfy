/** Linked code on the machine does what its program tree means. */
module Simulation {
  import opened Words
  import opened Blob
  import opened Language
  import opened Compiler
  import opened Linkage
  import Cells
  import Vm
  import P = Primitives

  /** Source primitives: everything but the words that would break the tree structure. */
  predicate Structured(p: Prog) {
    match p
    case End => true
    case Then(s, rest) => StructuredStmt(s) && Structured(rest)
  }

  predicate StructuredStmt(s: Stmt) {
    match s
    case Lit(_) => true
    case Prim(id) => 1 <= id < 256 && id != P.BRANCH && id != P.ZBRANCH && id != P.EXECUTE
    case Call(body) => Structured(body)
    case If(yes, no) => Structured(yes) && Structured(no)
    case Times(body) => Structured(body)
    case Until(cond, body) => Structured(cond) && Structured(body)
  }

  /** The database holds the literals and the words of a program under their CIDs. */
  predicate Stored(store: Store, h: Hash, p: Prog) {
    match p
    case End => true
    case Then(s, rest) => StoredStmt(store, h, s) && Stored(store, h, rest)
  }

  predicate StoredStmt(store: Store, h: Hash, s: Stmt) {
    match s
    case Lit(n) => HasRecord(store, h, Record(KIND_DATA, LiteralBytes(n)))
    case Prim(_) => true
    case Call(body) =>
      HasRecord(store, h, Record(KIND_WORD, Encode(Code(h, body)))) && Stored(store, h, body)
    case If(yes, no) => Stored(store, h, yes) && Stored(store, h, no)
    case Times(body) => Stored(store, h, body)
    case Until(cond, body) => Stored(store, h, cond) && Stored(store, h, body)
  }

  predicate HasRecord(store: Store, h: Hash, r: Record) {
    h(r.data) in store && store[h(r.data)] == r
  }

  /** The program with every literal cut to the 62 bits a LIT cell holds. */
  function Truncate(p: Prog): Prog {
    match p
    case End => End
    case Then(s, rest) => Then(TruncateStmt(s), Truncate(rest))
  }

  function TruncateStmt(s: Stmt): (t: Stmt)
    ensures s.Times? ==> t == Times(Truncate(s.body))
    ensures s.Until? ==> t == Until(Truncate(s.cond), Truncate(s.body))
  {
    match s
    case Lit(n) => Lit(Low62(n))
    case Prim(_) => s
    case Call(body) => Call(Truncate(body))
    case If(yes, no) => If(Truncate(yes), Truncate(no))
    case Times(body) => Times(Truncate(body))
    case Until(cond, body) => Until(Truncate(cond), Truncate(body))
  }

  /** All literals fit a LIT cell. */
  predicate Small(p: Prog) {
    match p
    case End => true
    case Then(s, rest) => SmallStmt(s) && Small(rest)
  }

  predicate SmallStmt(s: Stmt) {
    match s
    case Lit(n) => Fits62(n)
    case Prim(_) => true
    case Call(body) => Small(body)
    case If(yes, no) => Small(yes) && Small(no)
    case Times(body) => Small(body)
    case Until(cond, body) => Small(cond) && Small(body)
  }

  /** Truncation changes a program exactly when some literal needs more than 62 bits. */
  lemma {:induction false} TruncateIsIdentityIff(p: Prog)
    ensures Truncate(p) == p <==> Small(p)
    decreases p, 0
  {
    match p
    case End =>
    case Then(s, rest) =>
      TruncateStmtIsIdentityIff(s);
      TruncateIsIdentityIff(rest);
  }

  lemma {:induction false} TruncateStmtIsIdentityIff(s: Stmt)
    ensures TruncateStmt(s) == s <==> SmallStmt(s)
    decreases s, 1
  {
    match s
    case Lit(n) => Low62Exact(n);
    case Prim(_) =>
    case Call(body) => TruncateIsIdentityIff(body);
    case If(yes, no) => TruncateIsIdentityIff(yes); TruncateIsIdentityIff(no);
    case Times(body) => TruncateIsIdentityIff(body);
    case Until(cond, body) => TruncateIsIdentityIff(cond); TruncateIsIdentityIff(body);
  }

  // ----- Fragments in memory -----

  /** The items stand in consecutive cells from the given address on. */
  ghost predicate Span(l: Link, base: Word, xs: seq<Item>) {
    base + 8 * |xs| < USER_SPACE && forall i | 0 <= i < |xs| :: HasCell(l, base, i, xs[i])
  }

  lemma CellOfCell(base: Word, i: nat, j: int)
    requires base + 8 * i < TWO_64
    ensures Vm.Cell(Vm.Cell(base, i), j) == Vm.Cell(base, i + j)
  {
  }

  lemma CellZero(base: Word)
    ensures Vm.Cell(base, 0) == base
  {
  }

  lemma SpanSplit(l: Link, base: Word, xs: seq<Item>, ys: seq<Item>)
    requires Span(l, base, xs + ys)
    ensures Span(l, base, xs) && Span(l, Vm.Cell(base, |xs|), ys)
    ensures Vm.Cell(Vm.Cell(base, |xs|), |ys|) == Vm.Cell(base, |xs + ys|)
  {
    forall i | 0 <= i < |xs|
      ensures HasCell(l, base, i, xs[i])
    {
      assert HasCell(l, base, i, (xs + ys)[i]);
    }
    forall i | 0 <= i < |ys|
      ensures HasCell(l, Vm.Cell(base, |xs|), i, ys[i])
    {
      assert HasCell(l, base, |xs| + i, (xs + ys)[|xs| + i]);
      CellOfCell(base, |xs|, i);
    }
  }

  /** The part of a fragment from item i on. */
  lemma SpanFrom(l: Link, base: Word, xs: seq<Item>, i: nat, j: nat)
    requires Span(l, base, xs) && i <= j <= |xs|
    ensures Span(l, Vm.Cell(base, i), xs[i..j])
    ensures Vm.Cell(Vm.Cell(base, i), j - i) == Vm.Cell(base, j)
  {
    hide HasCell;
    CellOfCell(base, i, j - i);
    assert xs[..i] + xs[i..] == xs;
    SpanSplit(l, base, xs[..i], xs[i..]);
    assert xs[i..j] + xs[j..] == xs[i..];
    SpanSplit(l, Vm.Cell(base, i), xs[i..j], xs[j..]);
  }

  // ----- Single steps -----

  function At(a: Word, ds: seq<Word>, rs: seq<Word>): Vm.State {
    Vm.Regs(a, ds, rs, Vm.Running)
  }

  lemma StepPrimitive(l: Link, base: Word, i: nat, id: U16, ds: seq<Word>, rs: seq<Word>)
    requires TableOk(l) && HasCell(l, base, i, Op(id)) && base + 8 * i < TWO_64
    ensures Vm.Step(l.image, At(Vm.Cell(base, i), ds, rs))
      == Vm.RunPrimitive(l.image, At(Vm.Cell(base, i + 1), ds, rs), id)
  {
    CellOfCell(base, i, 1);
    assert PrimAddr(l, id, l.table[id]);
  }

  lemma StepInline(l: Link, base: Word, i: nat, v: Int64, ds: seq<Word>, rs: seq<Word>)
    requires HasCell(l, base, i, Inline(v)) && base + 8 * i < TWO_64
    ensures Vm.Step(l.image, At(Vm.Cell(base, i), ds, rs))
      == At(Vm.Cell(base, i + 1), [ToWord(Low62(v))] + ds, rs)
  {
    CellOfCell(base, i, 1);
    Cells.LitRoundTrip(v);
  }

  lemma StepData(l: Link, base: Word, h: Hash, n: Int64, ds: seq<Word>, rs: seq<Word>)
    requires HasRecord(l.store, h, Record(KIND_DATA, LiteralBytes(n)))
    requires HasCell(l, base, 0, Ref(KIND_DATA, h(LiteralBytes(n))))
    ensures Vm.Step(l.image, At(base, ds, rs)) == At(Vm.Cell(base, 1), [ToWord(Low62(n))] + ds, rs)
  {
    hide LittleEndian, FromLittleEndian, Low62, LiteralBytes, DataValue, Cells.EncodeLit, Cells.DecodeLit;
    CellZero(base);
    DataOfLiteral(n);
    Cells.LitRoundTrip(n);
  }

  lemma DataOfLiteral(n: Int64)
    ensures DataValue(LiteralBytes(n)) == n
  {
    hide LittleEndian, FromLittleEndian;
    assert LiteralBytes(n)[..8] == LiteralBytes(n);
    Pow256At8();
    LittleEndianRoundTrip(ToWord(n), 8);
    SignedToWord(n);
  }

  /** A branch whose offset is in cell i goes on at cell target. */
  ghost predicate LandsOn(l: Link, base: Word, i: nat, target: nat) {
    var a := Vm.Cell(base, i);
    a in l.image.code && Vm.BranchTarget(a, l.image.code[a]) == Vm.Cell(base, target)
  }

  /** An offset from a cell count lands on the item it was computed for. */
  lemma BranchLands(l: Link, base: Word, i: nat, offset: int, target: nat, len: nat)
    requires base + 8 * len < USER_SPACE && i < len && target <= len && target == i + 1 + offset
    requires HasCell(l, base, i, Inline(ToInt64(offset)))
    ensures LandsOn(l, base, i, target)
  {
    assert -TWO_61 <= offset < TWO_61;
    SignedToWord(offset);
    Cells.LitRoundTrip(offset);
    Low62Exact(offset);
    CellOfCell(base, i, 1);
    CellOfCell(base, i + 1, offset);
  }

  lemma StepBranch(l: Link, base: Word, i: nat, offset: int, target: nat, len: nat, ds: seq<Word>, rs: seq<Word>)
    requires TableOk(l) && base + 8 * len < USER_SPACE && i + 1 < len && target <= len && target == i + 2 + offset
    requires HasCell(l, base, i, Op(P.BRANCH)) && HasCell(l, base, i + 1, Inline(ToInt64(offset)))
    ensures Vm.Step(l.image, At(Vm.Cell(base, i), ds, rs)) == At(Vm.Cell(base, target), ds, rs)
  {
    StepPrimitive(l, base, i, P.BRANCH, ds, rs);
    BranchLands(l, base, i + 1, offset, target, len);
  }

  lemma StepZeroBranch(l: Link, base: Word, i: nat, offset: int, target: nat, len: nat,
                       flag: Word, ds: seq<Word>, rs: seq<Word>)
    requires TableOk(l) && base + 8 * len < USER_SPACE && i + 1 < len && target <= len && target == i + 2 + offset
    requires HasCell(l, base, i, Op(P.ZBRANCH)) && HasCell(l, base, i + 1, Inline(ToInt64(offset)))
    ensures Vm.Step(l.image, At(Vm.Cell(base, i), [flag] + ds, rs))
      == At(Vm.Cell(base, if flag == 0 then target else i + 2), ds, rs)
  {
    StepPrimitive(l, base, i, P.ZBRANCH, [flag] + ds, rs);
    assert ([flag] + ds)[1..] == ds;
    CellOfCell(base, i + 1, 1);
    BranchLands(l, base, i + 1, offset, target, len);
  }

  lemma StepPlain(l: Link, base: Word, i: nat, id: U16, ds: seq<Word>, rs: seq<Word>)
    requires TableOk(l) && HasCell(l, base, i, Op(id)) && base + 8 * i < TWO_64
    requires id != P.BRANCH && id != P.ZBRANCH && id != P.EXECUTE
    ensures match P.Effects(id, ds, rs)
      case Ok(ds', rs') => Vm.Step(l.image, At(Vm.Cell(base, i), ds, rs)) == At(Vm.Cell(base, i + 1), ds', rs')
      case _ => Vm.Step(l.image, At(Vm.Cell(base, i), ds, rs)).status == Vm.Fault
  {
    hide P.Effects;
    StepPrimitive(l, base, i, id, ds, rs);
  }

  // ----- Runs -----

  /** What n steps from a state must show for an outcome. A run that times out in the
      source is still running after at least as many steps as there was fuel. */
  ghost predicate Matches(m: Vm.Image, s: Vm.State, o: Outcome, end: Word, below: seq<Word>, fuel: nat, n: nat) {
    match o
    case Done(ds, rs) => Vm.Run(m, s, n) == At(end, ds, rs + below)
    case Trap => Vm.Run(m, s, n).status == Vm.Fault
    case Timeout => n >= fuel && Vm.Run(m, s, n).status == Vm.Running
    case Escape => true
  }

  lemma MatchesAfter(m: Vm.Image, s: Vm.State, k: nat, s': Vm.State, o: Outcome, end: Word,
                     below: seq<Word>, fuel: nat, n: nat)
    requires Vm.Run(m, s, k) == s' && Matches(m, s', o, end, below, fuel, n)
    ensures Matches(m, s, o, end, below, fuel + k, k + n)
    ensures Matches(m, s, o, end, below, fuel, k + n)
  {
    Vm.RunAdd(m, s, k, n);
  }

  lemma RunOne(m: Vm.Image, s: Vm.State)
    ensures Vm.Run(m, s, 1) == Vm.Step(m, s)
  {
    assert Vm.Run(m, Vm.Step(m, s), 0) == Vm.Step(m, s);
  }

  lemma RunThen(m: Vm.Image, s: Vm.State, k: nat, s': Vm.State, s'': Vm.State)
    requires Vm.Run(m, s, k) == s' && Vm.Step(m, s') == s''
    ensures Vm.Run(m, s, k + 1) == s''
  {
    RunOne(m, s');
    Vm.RunAdd(m, s, k, 1);
  }

  ghost predicate Ready(l: Link, h: Hash, p: Prog) {
    Ok(l) && Structured(p) && Stored(l.store, h, p)
  }

  ghost predicate ReadyStmt(l: Link, h: Hash, s: Stmt) {
    Ok(l) && StructuredStmt(s) && StoredStmt(l.store, h, s)
  }

  lemma {:induction false} Simulate(l: Link, h: Hash, p: Prog, base: Word, ds: seq<Word>, rs: seq<Word>,
                                    below: seq<Word>, fuel: nat) returns (n: nat)
    requires Ready(l, h, p) && Span(l, base, Code(h, p))
    ensures Matches(l.image, At(base, ds, rs + below), Eval(Truncate(p), ds, rs, fuel),
                    Vm.Cell(base, |Code(h, p)|), below, fuel, n)
    decreases fuel, p, 0
  {
    match p
    case End => n := 0;
    case Then(s, rest) =>
      var c1, c2 := CodeStmt(h, s), Code(h, rest);
      SpanSplit(l, base, c1, c2);
      n := SimulateStmt(l, h, s, base, ds, rs, below, fuel);
      var o := EvalStmt(TruncateStmt(s), ds, rs, fuel);
      if o.Done? {
        var mid := Vm.Cell(base, |c1|);
        var n2 := Simulate(l, h, rest, mid, o.ds, o.rs, below, fuel);
        MatchesAfter(l.image, At(base, ds, rs + below), n, At(mid, o.ds, o.rs + below),
                     Eval(Truncate(rest), o.ds, o.rs, fuel), Vm.Cell(mid, |c2|), below, fuel, n2);
        n := n + n2;
      }
  }

  lemma {:induction false} SimulateStmt(l: Link, h: Hash, s: Stmt, base: Word, ds: seq<Word>, rs: seq<Word>,
                                        below: seq<Word>, fuel: nat) returns (n: nat)
    requires ReadyStmt(l, h, s) && Span(l, base, CodeStmt(h, s))
    ensures Matches(l.image, At(base, ds, rs + below), EvalStmt(TruncateStmt(s), ds, rs, fuel),
                    Vm.Cell(base, |CodeStmt(h, s)|), below, fuel, n)
    decreases fuel, s, 2
  {
    match s
    case Lit(v) => n := SimulateLit(l, h, v, base, ds, rs, below, fuel);
    case Prim(id) => n := SimulatePrim(l, h, id, base, ds, rs, below, fuel);
    case Call(body) => n := SimulateCall(l, h, s, base, ds, rs, below, fuel);
    case If(yes, no) => n := SimulateIf(l, h, s, base, ds, rs, below, fuel);
    case Times(body) => n := SimulateTimes(l, h, s, base, ds, rs, below, fuel);
    case Until(cond, body) => n := SimulateUntil(l, h, s, base, ds, rs, below, fuel);
  }

  lemma SimulateLit(l: Link, h: Hash, v: Int64, base: Word, ds: seq<Word>, rs: seq<Word>,
                    below: seq<Word>, fuel: nat) returns (n: nat)
    requires ReadyStmt(l, h, Lit(v)) && Span(l, base, CodeStmt(h, Lit(v)))
    ensures Matches(l.image, At(base, ds, rs + below), EvalStmt(TruncateStmt(Lit(v)), ds, rs, fuel),
                    Vm.Cell(base, 1), below, fuel, n)
  {
    hide LiteralBytes, Low62, HasCell, Vm.Step, Vm.Cell;
    n := 1;
    assert HasCell(l, base, 0, CodeStmt(h, Lit(v))[0]);
    StepData(l, base, h, v, ds, rs + below);
    RunOne(l.image, At(base, ds, rs + below));
  }

  lemma SimulatePrim(l: Link, h: Hash, id: U16, base: Word, ds: seq<Word>, rs: seq<Word>,
                     below: seq<Word>, fuel: nat) returns (n: nat)
    requires ReadyStmt(l, h, Prim(id)) && Span(l, base, CodeStmt(h, Prim(id)))
    ensures Matches(l.image, At(base, ds, rs + below), EvalStmt(TruncateStmt(Prim(id)), ds, rs, fuel),
                    Vm.Cell(base, 1), below, fuel, n)
  {
    hide P.Effects, HasCell, Vm.Step, Vm.Cell;
    n := 1;
    CellZero(base);
    assert HasCell(l, base, 0, CodeStmt(h, Prim(id))[0]);
    StepPlain(l, base, 0, id, ds, rs + below);
    P.EffectsFrame(id, ds, rs, below);
    RunOne(l.image, At(base, ds, rs + below));
  }

  // ----- Calls -----

  lemma {:induction false} CodeIsValid(h: Hash, p: Prog)
    requires Structured(p)
    ensures ValidItems(Code(h, p))
    decreases p, 0
  {
    match p
    case End =>
    case Then(s, rest) =>
      StmtCodeIsValid(h, s);
      CodeIsValid(h, rest);
  }

  lemma {:induction false} StmtCodeIsValid(h: Hash, s: Stmt)
    requires StructuredStmt(s)
    ensures ValidItems(CodeStmt(h, s))
    decreases s, 1
  {
    hide ValidItems, Code, Encode;
    match s
    case Lit(_) => LeafIsValid(h, s);
    case Prim(_) => LeafIsValid(h, s);
    case Call(_) => LeafIsValid(h, s);
    case If(yes, no) =>
      CodeIsValid(h, yes);
      CodeIsValid(h, no);
      IfIsValid(Code(h, yes), Code(h, no));
    case Times(body) =>
      CodeIsValid(h, body);
      TimesIsValid(Code(h, body));
    case Until(cond, body) =>
      CodeIsValid(h, cond);
      CodeIsValid(h, body);
      UntilIsValid(Code(h, cond), Code(h, body));
  }

  lemma LeafIsValid(h: Hash, s: Stmt)
    requires (s.Lit? || s.Prim? || s.Call?) && StructuredStmt(s)
    ensures ValidItems(CodeStmt(h, s))
  {
  }

  lemma IfIsValid(yes: seq<Item>, no: seq<Item>)
    requires ValidItems(yes) && ValidItems(no)
    ensures ValidItems(IfCode(yes, no))
  {
  }

  lemma TimesIsValid(body: seq<Item>)
    requires ValidItems(body)
    ensures ValidItems(TimesCode(body))
  {
  }

  lemma UntilIsValid(cond: seq<Item>, body: seq<Item>)
    requires ValidItems(cond) && ValidItems(body)
    ensures ValidItems(UntilCode(cond, body))
  {
  }

  /** A call cell leads through its wrapper to the cells of the body. */
  lemma Entered(l: Link, h: Hash, body: Prog, addr: Word)
    requires Ok(l) && Structured(body)
    requires HasRecord(l.store, h, Record(KIND_WORD, Encode(Code(h, body))))
    requires Denotes(l, h(Encode(Code(h, body))), addr)
    ensures CallableAddr(l, addr) && addr in l.image.words
    ensures Span(l, l.image.words[addr], Code(h, body))
    ensures var exit := Vm.Cell(l.image.words[addr], |Code(h, body)|);
      exit in l.image.code && l.image.code[exit] == Cells.EXIT
  {
    CodeIsValid(h, body);
    ParseEncode(Code(h, body));
  }

  lemma {:induction false} SimulateCall(l: Link, h: Hash, s: Stmt, base: Word, ds: seq<Word>, rs: seq<Word>,
                                        below: seq<Word>, fuel: nat) returns (n: nat)
    requires s.Call? && ReadyStmt(l, h, s) && Span(l, base, CodeStmt(h, s))
    ensures Matches(l.image, At(base, ds, rs + below), EvalStmt(TruncateStmt(s), ds, rs, fuel),
                    Vm.Cell(base, 1), below, fuel, n)
    decreases fuel, s, 0
  {
    hide HasCell, Vm.Step, Vm.Cell, Denotes, Ok, Encode, Code;
    var m := l.image;
    var cid := h(Encode(Code(h, s.body)));
    assert HasCell(l, base, 0, CodeStmt(h, s)[0]);
    var back := Vm.Cell(base, 1);
    var addr := StepCall(l, base, cid, ds, rs + below);
    Entered(l, h, s.body, addr);
    var s0 := At(base, ds, rs + below);
    RunOne(m, s0);
    n := SimulateBody(l, h, s.body, m.words[addr], back, ds, rs + below, fuel);
    Vm.RunAdd(m, s0, 1, n);
    n := 1 + n;
  }

  lemma StepCall(l: Link, base: Word, cid: Cid, ds: seq<Word>, rs: seq<Word>) returns (addr: Word)
    requires Ok(l) && HasCell(l, base, 0, Ref(KIND_WORD, cid))
    ensures Denotes(l, cid, addr)
    ensures CallableAddr(l, addr) && addr in l.image.words ==>
      Vm.Step(l.image, At(base, ds, rs)) == At(l.image.words[addr], ds, [Vm.Cell(base, 1)] + rs)
  {
    hide Denotes;
    addr := l.cache[cid];
  }

  /** A body run from its first cell to its EXIT. */
  lemma {:induction false} SimulateBody(l: Link, h: Hash, body: Prog, start: Word, back: Word, ds: seq<Word>,
                                        below: seq<Word>, fuel: nat) returns (n: nat)
    requires Ready(l, h, body) && Span(l, start, Code(h, body))
    requires var exit := Vm.Cell(start, |Code(h, body)|);
      exit in l.image.code && l.image.code[exit] == Cells.EXIT
    ensures var o := Eval(Truncate(body), ds, [], fuel);
      var r := Vm.Run(l.image, At(start, ds, [back] + below), n);
      match o
      case Done(ds', rs') => rs' == [] ==> r == At(back, ds', below)
      case Trap => r.status == Vm.Fault
      case Timeout => n >= fuel && r.status == Vm.Running
      case Escape => true
    decreases fuel, body, 2
  {
    n := Simulate(l, h, body, start, ds, [], [back] + below, fuel);
    assert [] + ([back] + below) == [back] + below;
    var o := Eval(Truncate(body), ds, [], fuel);
    if o.Done? && o.rs == [] {
      var exit := Vm.Cell(start, |Code(h, body)|);
      RunThen(l.image, At(start, ds, [back] + below), n, At(exit, o.ds, [back] + below), At(back, o.ds, below));
      n := n + 1;
    }
  }

  // ----- if -----

  lemma {:induction false} SimulateIf(l: Link, h: Hash, s: Stmt, base: Word, ds: seq<Word>, rs: seq<Word>,
                                      below: seq<Word>, fuel: nat) returns (n: nat)
    requires s.If? && ReadyStmt(l, h, s) && Span(l, base, CodeStmt(h, s))
    ensures Matches(l.image, At(base, ds, rs + below), EvalStmt(TruncateStmt(s), ds, rs, fuel),
                    Vm.Cell(base, |CodeStmt(h, s)|), below, fuel, n)
    decreases fuel, s, 0
  {
    hide HasCell, Vm.Step, Vm.Cell, Span, IfCode, Code, P.Effects;
    var m := l.image;
    var yes, no := Code(h, s.yes), Code(h, s.no);
    IfCells(l, base, yes, no);
    var len, k := |yes| + |no| + 4, |yes|;
    var s0 := At(base, ds, rs + below);
    CellZero(base);
    if ds == [] {
      StepPrimitive(l, base, 0, P.ZBRANCH, ds, rs + below);
      RunOne(m, s0);
      n := 1;
    } else {
      var flag, ds' := ds[0], ds[1..];
      assert [flag] + ds' == ds;
      StepZeroBranch(l, base, 0, k + 2, k + 4, len, flag, ds', rs + below);
      RunOne(m, s0);
      if flag == 0 {
        var start := Vm.Cell(base, k + 4);
        n := Simulate(l, h, s.no, start, ds', rs, below, fuel);
        MatchesAfter(m, s0, 1, At(start, ds', rs + below), Eval(Truncate(s.no), ds', rs, fuel),
                     Vm.Cell(base, len), below, fuel, n);
        n := 1 + n;
      } else {
        var start := Vm.Cell(base, 2);
        n := Simulate(l, h, s.yes, start, ds', rs, below, fuel);
        var o := Eval(Truncate(s.yes), ds', rs, fuel);
        n := SkipElse(l, base, k, |no|, At(start, ds', rs + below), o, below, fuel, n);
        MatchesAfter(m, s0, 1, At(start, ds', rs + below), o, Vm.Cell(base, len), below, fuel, n);
        n := 1 + n;
      }
    }
  }

  /** After the true branch: over the false one. */
  lemma SkipElse(l: Link, base: Word, k: nat, other: nat, s: Vm.State, o: Outcome, below: seq<Word>,
                 fuel: nat, n: nat) returns (n': nat)
    requires TableOk(l) && base + 8 * (k + other + 4) < USER_SPACE
    requires HasCell(l, base, k + 2, Op(P.BRANCH)) && HasCell(l, base, k + 3, Inline(ToInt64(other)))
    requires Matches(l.image, s, o, Vm.Cell(base, k + 2), below, fuel, n)
    ensures Matches(l.image, s, o, Vm.Cell(base, k + other + 4), below, fuel, n')
  {
    hide HasCell, Vm.Step, Vm.Cell;
    n' := n;
    if o.Done? {
      var end := k + other + 4;
      StepBranch(l, base, k + 2, other, end, end, o.ds, o.rs + below);
      RunThen(l.image, s, n, At(Vm.Cell(base, k + 2), o.ds, o.rs + below), At(Vm.Cell(base, end), o.ds, o.rs + below));
      n' := n + 1;
    }
  }

  lemma IfCells(l: Link, base: Word, yes: seq<Item>, no: seq<Item>)
    requires Span(l, base, IfCode(yes, no))
    ensures |IfCode(yes, no)| == |yes| + |no| + 4 && base + 8 * (|yes| + |no| + 4) < USER_SPACE
    ensures HasCell(l, base, 0, Op(P.ZBRANCH)) && HasCell(l, base, 1, Inline(ToInt64(|yes| + 2)))
    ensures Span(l, Vm.Cell(base, 2), yes) && Vm.Cell(Vm.Cell(base, 2), |yes|) == Vm.Cell(base, |yes| + 2)
    ensures HasCell(l, base, |yes| + 2, Op(P.BRANCH))
    ensures HasCell(l, base, |yes| + 3, Inline(ToInt64(|no|)))
    ensures Span(l, Vm.Cell(base, |yes| + 4), no)
    ensures Vm.Cell(Vm.Cell(base, |yes| + 4), |no|) == Vm.Cell(base, |yes| + |no| + 4)
    ensures LandsOn(l, base, 1, |yes| + 4) && LandsOn(l, base, |yes| + 3, |yes| + |no| + 4)
  {
    hide HasCell, LandsOn;
    var xs := IfCode(yes, no);
    assert HasCell(l, base, 0, xs[0]) && HasCell(l, base, 1, xs[1]);
    assert HasCell(l, base, |yes| + 2, xs[|yes| + 2]) && HasCell(l, base, |yes| + 3, xs[|yes| + 3]);
    SpanFrom(l, base, xs, 2, |yes| + 2);
    assert xs[2..|yes| + 2] == yes;
    SpanFrom(l, base, xs, |yes| + 4, |xs|);
    assert xs[|yes| + 4..|xs|] == no;
    BranchLands(l, base, 1, |yes| + 2, |yes| + 4, |xs|);
    BranchLands(l, base, |yes| + 3, |no|, |xs|, |xs|);
  }

  // ----- Counted loops -----

  lemma {:induction false} SimulateTimes(l: Link, h: Hash, s: Stmt, base: Word, ds: seq<Word>, rs: seq<Word>,
                                         below: seq<Word>, fuel: nat) returns (n: nat)
    requires s.Times? && ReadyStmt(l, h, s) && Span(l, base, CodeStmt(h, s))
    ensures Matches(l.image, At(base, ds, rs + below), EvalStmt(TruncateStmt(s), ds, rs, fuel),
                    Vm.Cell(base, |CodeStmt(h, s)|), below, fuel, n)
    decreases fuel, s, 1
  {
    hide HasCell, Vm.Step, Vm.Cell, Span;
    var s0 := At(base, ds, rs + below);
    TimesCells(l, base, Code(h, s.body));
    CellZero(base);
    StepPlain(l, base, 0, P.TOR, ds, rs + below);
    RunOne(l.image, s0);
    n := 1;
    if ds != [] {
      var ds', rs' := ds[1..], [ds[0]] + rs;
      assert [ds[0]] + (rs + below) == rs' + below;
      n := SimulateTimesLoop(l, h, s, base, ds', rs', below, fuel);
      MatchesAfter(l.image, s0, 1, At(Vm.Cell(base, 1), ds', rs' + below),
                   TimesLoop(TruncateStmt(s), ds', rs', fuel), Vm.Cell(base, |CodeStmt(h, s)|), below, fuel, n);
      n := 1 + n;
    }
  }

  lemma TimesCells(l: Link, base: Word, body: seq<Item>)
    requires Span(l, base, TimesCode(body))
    ensures base + 8 * (|body| + 11) < USER_SPACE
    ensures HasCell(l, base, 0, Op(P.TOR)) && HasCell(l, base, 1, Op(P.RFETCH))
    ensures HasCell(l, base, 2, Op(P.ZBRANCH)) && HasCell(l, base, 3, Inline(ToInt64(|body| + 6)))
    ensures HasCell(l, base, 4, Op(P.FROMR)) && HasCell(l, base, 5, Inline(1))
    ensures HasCell(l, base, 6, Op(P.SUB)) && HasCell(l, base, 7, Op(P.TOR))
    ensures Span(l, Vm.Cell(base, 8), body) && Vm.Cell(Vm.Cell(base, 8), |body|) == Vm.Cell(base, |body| + 8)
    ensures HasCell(l, base, |body| + 8, Op(P.BRANCH))
    ensures HasCell(l, base, |body| + 9, Inline(ToInt64(-(|body| + 9))))
    ensures HasCell(l, base, |body| + 10, Op(P.RDROP))
    ensures LandsOn(l, base, 3, |body| + 10) && LandsOn(l, base, |body| + 9, 1)
  {
    hide HasCell, LandsOn;
    var xs := TimesCode(body);
    assert HasCell(l, base, 0, xs[0]) && HasCell(l, base, 1, xs[1]) && HasCell(l, base, 2, xs[2]);
    assert HasCell(l, base, 3, xs[3]) && HasCell(l, base, 4, xs[4]) && HasCell(l, base, 5, xs[5]);
    assert HasCell(l, base, 6, xs[6]) && HasCell(l, base, 7, xs[7]);
    var k := |body| + 8;
    assert HasCell(l, base, k, xs[k]) && HasCell(l, base, k + 1, xs[k + 1]) && HasCell(l, base, k + 2, xs[k + 2]);
    SpanFrom(l, base, xs, 8, k);
    assert xs[8..k] == body;
    BranchLands(l, base, 3, |body| + 6, |body| + 10, |xs|);
    BranchLands(l, base, |body| + 9, -(|body| + 9), 1, |xs|);
  }

  /** From the loop start on, with the counter on the return stack. */
  lemma {:induction false} SimulateTimesLoop(l: Link, h: Hash, s: Stmt, base: Word, ds: seq<Word>, rs: seq<Word>,
                                             below: seq<Word>, fuel: nat) returns (n: nat)
    requires s.Times? && ReadyStmt(l, h, s) && Span(l, base, CodeStmt(h, s))
    ensures Matches(l.image, At(Vm.Cell(base, 1), ds, rs + below), TimesLoop(TruncateStmt(s), ds, rs, fuel),
                    Vm.Cell(base, |CodeStmt(h, s)|), below, fuel, n)
    decreases fuel, s, 0
  {
    hide HasCell, Vm.Step, Vm.Cell, Span;
    n := 0;
    if rs != [] {
      var m, body := l.image, Code(h, s.body);
      var k, end := |body|, Vm.Cell(base, |body| + 11);
      var head := At(Vm.Cell(base, 1), ds, rs + below);
      TimesCells(l, base, body);
      if rs[0] == 0 {
        TimesLeaves(l, base, k, ds, rs, below);
        n := 3;
      } else if fuel > 0 {
        var rs' := [ToWord(rs[0] - 1)] + rs[1..];
        var start := At(Vm.Cell(base, 8), ds, rs' + below);
        TimesEnters(l, base, k, ds, rs, below);
        n := Simulate(l, h, s.body, Vm.Cell(base, 8), ds, rs', below, fuel);
        var o := Eval(Truncate(s.body), ds, rs', fuel);
        if o.Done? {
          var again := At(Vm.Cell(base, 1), o.ds, o.rs + below);
          StepBranch(l, base, k + 8, -(k + 9), 1, k + 11, o.ds, o.rs + below);
          RunThen(m, start, n, At(Vm.Cell(base, k + 8), o.ds, o.rs + below), again);
          var n2 := SimulateTimesLoop(l, h, s, base, o.ds, o.rs, below, fuel - 1);
          MatchesAfter(m, start, n + 1, again, TimesLoop(TruncateStmt(s), o.ds, o.rs, fuel - 1),
                       end, below, fuel - 1, n2);
          n := n + 1 + n2;
        }
        MatchesAfter(m, head, 6, start, TimesLoop(TruncateStmt(s), ds, rs, fuel), end, below, fuel, n);
        n := 6 + n;
      }
    }
  }

  ghost predicate TimesControl(l: Link, base: Word, k: nat) {
    && TableOk(l) && base + 8 * (k + 11) < USER_SPACE
    && HasCell(l, base, 1, Op(P.RFETCH))
    && HasCell(l, base, 2, Op(P.ZBRANCH)) && HasCell(l, base, 3, Inline(ToInt64(k + 6)))
    && HasCell(l, base, 4, Op(P.FROMR)) && HasCell(l, base, 5, Inline(1))
    && HasCell(l, base, 6, Op(P.SUB)) && HasCell(l, base, 7, Op(P.TOR))
    && HasCell(l, base, k + 10, Op(P.RDROP))
  }

  /** A zero counter: r@ 0branch rdrop. */
  lemma TimesLeaves(l: Link, base: Word, k: nat, ds: seq<Word>, rs: seq<Word>, below: seq<Word>)
    requires TimesControl(l, base, k) && rs != [] && rs[0] == 0
    ensures Vm.Run(l.image, At(Vm.Cell(base, 1), ds, rs + below), 3) == At(Vm.Cell(base, k + 11), ds, rs[1..] + below)
  {
    hide HasCell, Vm.Step, Vm.Cell, Span;
    var m, full := l.image, rs + below;
    var s0 := At(Vm.Cell(base, 1), ds, full);
    var s1 := At(Vm.Cell(base, 2), [full[0]] + ds, full);
    var s2 := At(Vm.Cell(base, k + 10), ds, full);
    var s3 := At(Vm.Cell(base, k + 11), ds, full[1..]);
    StepPlain(l, base, 1, P.RFETCH, ds, full);
    RunOne(m, s0);
    StepZeroBranch(l, base, 2, k + 6, k + 10, k + 11, full[0], ds, full);
    RunThen(m, s0, 1, s1, s2);
    StepPlain(l, base, k + 10, P.RDROP, ds, full);
    RunThen(m, s0, 2, s2, s3);
    assert full[1..] == rs[1..] + below;
  }

  /** A non-zero counter: r@ 0branch r> 1 - >r. */
  lemma TimesEnters(l: Link, base: Word, k: nat, ds: seq<Word>, rs: seq<Word>, below: seq<Word>)
    requires TimesControl(l, base, k) && rs != [] && rs[0] != 0
    ensures Vm.Run(l.image, At(Vm.Cell(base, 1), ds, rs + below), 6)
      == At(Vm.Cell(base, 8), ds, [ToWord(rs[0] - 1)] + rs[1..] + below)
  {
    hide HasCell, Vm.Step, Vm.Cell, Span;
    var m, full := l.image, rs + below;
    var c, rest := full[0], full[1..];
    var s0 := At(Vm.Cell(base, 1), ds, full);
    var s1 := At(Vm.Cell(base, 2), [c] + ds, full);
    var s2 := At(Vm.Cell(base, 4), ds, full);
    var s3 := At(Vm.Cell(base, 5), [c] + ds, rest);
    var s4 := At(Vm.Cell(base, 6), [1] + ([c] + ds), rest);
    var s5 := At(Vm.Cell(base, 7), [ToWord(c - 1)] + ds, rest);
    var s6 := At(Vm.Cell(base, 8), ds, [ToWord(c - 1)] + rest);
    StepPlain(l, base, 1, P.RFETCH, ds, full);
    RunOne(m, s0);
    StepZeroBranch(l, base, 2, k + 6, k + 10, k + 11, c, ds, full);
    RunThen(m, s0, 1, s1, s2);
    StepPlain(l, base, 4, P.FROMR, ds, full);
    RunThen(m, s0, 2, s2, s3);
    StepInline(l, base, 5, 1, [c] + ds, rest);
    RunThen(m, s0, 3, s3, s4);
    SubStep(c, ds, rest);
    StepPlain(l, base, 6, P.SUB, [1] + ([c] + ds), rest);
    RunThen(m, s0, 4, s4, s5);
    assert ([ToWord(c - 1)] + ds)[1..] == ds;
    StepPlain(l, base, 7, P.TOR, [ToWord(c - 1)] + ds, rest);
    RunThen(m, s0, 5, s5, s6);
    assert [ToWord(c - 1)] + rest == [ToWord(rs[0] - 1)] + rs[1..] + below;
  }

  lemma SubStep(c: Word, ds: seq<Word>, rs: seq<Word>)
    ensures P.Effects(P.SUB, [1] + ([c] + ds), rs) == P.Ok([ToWord(c - 1)] + ds, rs)
  {
    assert ([1] + ([c] + ds))[2..] == ds;
  }

  // ----- Until loops -----

  lemma {:induction false} SimulateUntil(l: Link, h: Hash, s: Stmt, base: Word, ds: seq<Word>, rs: seq<Word>,
                                         below: seq<Word>, fuel: nat) returns (n: nat)
    requires s.Until? && ReadyStmt(l, h, s) && Span(l, base, CodeStmt(h, s))
    ensures Matches(l.image, At(base, ds, rs + below), UntilLoop(TruncateStmt(s), ds, rs, fuel),
                    Vm.Cell(base, |CodeStmt(h, s)|), below, fuel, n)
    decreases fuel, s, 0
  {
    hide HasCell, Vm.Step, Vm.Cell, Span;
    n := 0;
    if fuel > 0 {
      var m := l.image;
      var body, cond := Code(h, s.body), Code(h, s.cond);
      var i, k := |body|, |body| + |cond|;
      var head, end := At(base, ds, rs + below), Vm.Cell(base, k + 2);
      UntilCells(l, base, cond, body);
      n := Simulate(l, h, s.body, base, ds, rs, below, fuel);
      var o := Eval(Truncate(s.body), ds, rs, fuel);
      if o.Done? {
        var s1 := At(Vm.Cell(base, i), o.ds, o.rs + below);
        var nc := Simulate(l, h, s.cond, Vm.Cell(base, i), o.ds, o.rs, below, fuel);
        var c := Eval(Truncate(s.cond), o.ds, o.rs, fuel);
        if c.Done? {
          var s2 := At(Vm.Cell(base, k), c.ds, c.rs + below);
          Vm.RunAdd(m, head, n, nc);
          n := n + nc;
          assert Vm.Run(m, head, n) == s2;
          if c.ds == [] {
            StepPrimitive(l, base, k, P.ZBRANCH, c.ds, c.rs + below);
            RunThen(m, head, n, s2, Vm.Step(m, s2));
            n := n + 1;
          } else {
            var flag, ds' := c.ds[0], c.ds[1..];
            assert [flag] + ds' == c.ds;
            StepZeroBranch(l, base, k, -(k + 2), 0, k + 2, flag, ds', c.rs + below);
            RunThen(m, head, n, s2, Vm.Step(m, s2));
            n := n + 1;
            if flag == 0 {
              CellZero(base);
              var n2 := SimulateUntil(l, h, s, base, ds', c.rs, below, fuel - 1);
              MatchesAfter(m, head, n, At(base, ds', c.rs + below), UntilLoop(TruncateStmt(s), ds', c.rs, fuel - 1),
                           end, below, fuel - 1, n2);
              n := n + n2;
            }
          }
        } else {
          MatchesAfter(m, head, n, s1, c, end, below, fuel, nc);
          n := n + nc;
        }
      }
    }
  }

  lemma UntilCells(l: Link, base: Word, cond: seq<Item>, body: seq<Item>)
    requires Span(l, base, UntilCode(cond, body))
    ensures var k := |body| + |cond|;
      && base + 8 * (k + 2) < USER_SPACE
      && Span(l, base, body)
      && Span(l, Vm.Cell(base, |body|), cond) && Vm.Cell(Vm.Cell(base, |body|), |cond|) == Vm.Cell(base, k)
      && HasCell(l, base, k, Op(P.ZBRANCH)) && HasCell(l, base, k + 1, Inline(ToInt64(-(k + 2))))
      && LandsOn(l, base, k + 1, 0)
  {
    hide HasCell, LandsOn;
    var xs := UntilCode(cond, body);
    var k := |body| + |cond|;
    assert HasCell(l, base, k, xs[k]) && HasCell(l, base, k + 1, xs[k + 1]);
    SpanFrom(l, base, xs, 0, |body|);
    assert xs[0..|body|] == body;
    SpanFrom(l, base, xs, |body|, k);
    assert xs[|body|..k] == cond;
    BranchLands(l, base, k + 1, -(k + 2), 0, |xs|);
  }
}
