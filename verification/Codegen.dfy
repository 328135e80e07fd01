/** The reference code generator (resources/codegen.ml): cell streams straight from
    expressions, with runs of literals packed behind one LNT cell. */
module Codegen {
  import opened Words
  import opened Wrappers
  import Cells
  import Vm

  datatype Expr =
    | ELit(value: Int64)
    | EWord(name: string)
    | ECall(name: string, args: Exprs)
    | ESeq(exprs: Exprs)

  datatype Exprs = Nil | Cons(head: Expr, tail: Exprs)

  /** Where names lead: words that have an address, and a stand-in for all others. */
  datatype Names = Names(words: map<string, Word>, primitive: string -> Word)

  function WordAddr(names: Names, name: string): Word {
    if name in names.words then names.words[name] else names.primitive(name)
  }

  // ----- Generation -----

  function GenExpr(names: Names, ctx: seq<Word>, e: Expr): seq<Word>
    decreases e, 1
  {
    match e
    case ELit(v) => ctx + [Cells.EncodeLit(v)]
    case EWord(name) => ctx + [Cells.EncodeXt(WordAddr(names, name))]
    case ECall(name, args) => GenArgs(names, ctx, args) + [Cells.EncodeXt(names.primitive(name))]
    case ESeq(exprs) => GenExprList(names, ctx, exprs)
  }

  /** List.fold_left gen_expr: arguments are generated one by one, without packing. */
  function GenArgs(names: Names, ctx: seq<Word>, args: Exprs): seq<Word>
    decreases args, 0
  {
    match args
    case Nil => ctx
    case Cons(e, rest) => GenArgs(names, GenExpr(names, ctx, e), rest)
  }

  predicate StartsRun(exprs: Exprs) {
    exprs.Cons? && exprs.head.ELit? && exprs.tail.Cons? && exprs.tail.head.ELit?
  }

  /** The literals at the front, and what follows them. */
  function CollectLits(exprs: Exprs): (r: (seq<Int64>, Exprs))
    ensures r.1 == exprs || r.1 < exprs
    ensures exprs.Cons? && exprs.head.ELit? ==> r.0 != [] && r.1 < exprs
  {
    if exprs.Cons? && exprs.head.ELit? then
      var (lits, rest) := CollectLits(exprs.tail);
      ([exprs.head.value] + lits, rest)
    else ([], exprs)
  }

  function RawCells(lits: seq<Int64>): (cells: seq<Word>)
    ensures |cells| == |lits|
    ensures forall i | 0 <= i < |lits| :: cells[i] == ToWord(lits[i])
  {
    if lits == [] then [] else [ToWord(lits[0])] + RawCells(lits[1..])
  }

  function GenExprList(names: Names, ctx: seq<Word>, exprs: Exprs): seq<Word>
    decreases exprs, 0
  {
    if exprs.Nil? then ctx
    else if StartsRun(exprs) then
      var (lits, rest) := CollectLits(exprs);
      GenExprList(names, ctx + [Cells.EncodeLnt(ToWord(|lits|))] + RawCells(lits), rest)
    else
      GenExprList(names, GenExpr(names, ctx, exprs.head), exprs.tail)
  }

  function GenWordDef(names: Names, body: Exprs): seq<Word> {
    GenExprList(names, [], body) + [Cells.EXIT]
  }

  // ----- What an expression asks for -----

  datatype Action = Push(w: Word) | Exec(addr: Word)

  function Actions(names: Names, e: Expr): seq<Action>
    decreases e, 1
  {
    match e
    case ELit(v) => [Push(ToWord(v))]
    case EWord(name) => [Exec(Cells.EncodeXt(WordAddr(names, name)))]
    case ECall(name, args) => ListActions(names, args) + [Exec(Cells.EncodeXt(names.primitive(name)))]
    case ESeq(exprs) => ListActions(names, exprs)
  }

  function ListActions(names: Names, exprs: Exprs): seq<Action>
    decreases exprs, 0
  {
    match exprs
    case Nil => []
    case Cons(e, rest) => Actions(names, e) + ListActions(names, rest)
  }

  /** The actions the generated cells stand for: a literal outside a packed run goes
      through a LIT cell and is cut to 62 bits. */
  function Emitted(names: Names, e: Expr): seq<Action>
    decreases e, 1
  {
    match e
    case ELit(v) => [Push(ToWord(Low62(v)))]
    case EWord(name) => [Exec(Cells.EncodeXt(WordAddr(names, name)))]
    case ECall(name, args) => EmittedArgs(names, args) + [Exec(Cells.EncodeXt(names.primitive(name)))]
    case ESeq(exprs) => EmittedList(names, exprs)
  }

  function EmittedArgs(names: Names, args: Exprs): seq<Action>
    decreases args, 0
  {
    match args
    case Nil => []
    case Cons(e, rest) => Emitted(names, e) + EmittedArgs(names, rest)
  }

  function EmittedList(names: Names, exprs: Exprs): seq<Action>
    decreases exprs, 0
  {
    if exprs.Nil? then []
    else if StartsRun(exprs) then
      var (lits, rest) := CollectLits(exprs);
      Pushes(RawCells(lits)) + EmittedList(names, rest)
    else Emitted(names, exprs.head) + EmittedList(names, exprs.tail)
  }

  /** Every literal outside a packed run fits 62 bits. */
  predicate LoneLitsFit(e: Expr)
    decreases e, 1
  {
    match e
    case ELit(v) => Fits62(v)
    case EWord(_) => true
    case ECall(_, args) => ArgsFit(args)
    case ESeq(exprs) => ListFits(exprs)
  }

  predicate ArgsFit(args: Exprs)
    decreases args, 0
  {
    args.Cons? ==> LoneLitsFit(args.head) && ArgsFit(args.tail)
  }

  predicate ListFits(exprs: Exprs)
    decreases exprs, 0
  {
    if exprs.Nil? then true
    else if StartsRun(exprs) then ListFits(CollectLits(exprs).1)
    else LoneLitsFit(exprs.head) && ListFits(exprs.tail)
  }

  lemma SameParts<T>(a: seq<T>, b: seq<T>, x: seq<T>, y: seq<T>)
    requires |a| == |b|
    ensures a + x == b + y <==> a == b && x == y
  {
    if a + x == b + y {
      assert a == (a + x)[..|a|] && b == (b + y)[..|a|];
      assert x == (a + x)[|a|..] && y == (b + y)[|a|..];
    }
  }

  lemma WordsDiffer(v: Int64)
    ensures ToWord(Low62(v)) == ToWord(v) <==> Fits62(v)
  {
    Low62Exact(v);
    SignedToWord(v);
    SignedToWord(Low62(v));
  }

  lemma {:induction false} RunActions(names: Names, exprs: Exprs)
    ensures var (lits, rest) := CollectLits(exprs);
      ListActions(names, exprs) == Pushes(RawCells(lits)) + ListActions(names, rest)
  {
    if exprs.Cons? && exprs.head.ELit? {
      RunActions(names, exprs.tail);
      var (lits, rest) := CollectLits(exprs.tail);
      var all := [exprs.head.value] + lits;
      assert all[1..] == lits;
      assert RawCells(all) == [ToWord(exprs.head.value)] + RawCells(lits);
      assert RawCells(all)[1..] == RawCells(lits);
      assert Pushes(RawCells(all)) == [Push(ToWord(exprs.head.value))] + Pushes(RawCells(lits));
      assert ListActions(names, exprs) == Actions(names, exprs.head) + ListActions(names, exprs.tail);
    }
  }

  /** The generated code means what was written exactly when every lone literal fits. */
  lemma {:induction false} EmittedIsMeantIff(names: Names, e: Expr)
    ensures |Emitted(names, e)| == |Actions(names, e)|
    ensures Emitted(names, e) == Actions(names, e) <==> LoneLitsFit(e)
    decreases e, 1
  {
    match e
    case ELit(v) =>
      WordsDiffer(v);
      assert Emitted(names, e)[0] == Push(ToWord(Low62(v))) && Actions(names, e)[0] == Push(ToWord(v));
    case EWord(_) =>
    case ECall(name, args) =>
      ArgsAreMeantIff(names, args);
      var call := [Exec(Cells.EncodeXt(names.primitive(name)))];
      SameParts(EmittedArgs(names, args), ListActions(names, args), call, call);
    case ESeq(exprs) => ListIsMeantIff(names, exprs);
  }

  lemma {:induction false} ArgsAreMeantIff(names: Names, args: Exprs)
    ensures |EmittedArgs(names, args)| == |ListActions(names, args)|
    ensures EmittedArgs(names, args) == ListActions(names, args) <==> ArgsFit(args)
    decreases args, 0
  {
    match args
    case Nil =>
    case Cons(e, rest) =>
      EmittedIsMeantIff(names, e);
      ArgsAreMeantIff(names, rest);
      SameParts(Emitted(names, e), Actions(names, e), EmittedArgs(names, rest), ListActions(names, rest));
  }

  lemma {:induction false} ListIsMeantIff(names: Names, exprs: Exprs)
    ensures |EmittedList(names, exprs)| == |ListActions(names, exprs)|
    ensures EmittedList(names, exprs) == ListActions(names, exprs) <==> ListFits(exprs)
    decreases exprs, 0
  {
    if StartsRun(exprs) {
      hide Pushes, RawCells;
      var (lits, rest) := CollectLits(exprs);
      RunActions(names, exprs);
      ListIsMeantIff(names, rest);
      var raw := Pushes(RawCells(lits));
      SameParts(raw, raw, EmittedList(names, rest), ListActions(names, rest));
    } else if exprs.Cons? {
      var e, rest := exprs.head, exprs.tail;
      EmittedIsMeantIff(names, e);
      ListIsMeantIff(names, rest);
      SameParts(Emitted(names, e), Actions(names, e), EmittedList(names, rest), ListActions(names, rest));
    }
  }

  // ----- What a cell stream asks for, read as the dispatch loop reads it -----

  /** None for a stream that ends inside a run of raw cells, or that holds a cell the
      generator does not make. */
  function Decode(cells: seq<Word>): Option<seq<Action>>
    decreases |cells|
  {
    if cells == [] then Some([])
    else
      var c, rest := cells[0], cells[1..];
      if Cells.DecodeTag(c) == Cells.TAG_LNT then
        var n := Cells.DecodeLnt(c);
        if n > |rest| then None else Prepend(Pushes(rest[..n]), Decode(rest[n..]))
      else if c % 4 == 0 then Prepend([Exec(c)], Decode(rest))
      else if c % 4 == 1 then Prepend([Push(ToWord(Cells.DecodeLit(c)))], Decode(rest))
      else None
  }

  function Pushes(cells: seq<Word>): seq<Action> {
    if cells == [] then [] else [Push(cells[0])] + Pushes(cells[1..])
  }

  function Prepend(xs: seq<Action>, ys: Option<seq<Action>>): Option<seq<Action>> {
    match ys
    case None => None
    case Some(zs) => Some(xs + zs)
  }

  lemma PrependTwice(xs: seq<Action>, ys: seq<Action>, zs: Option<seq<Action>>)
    ensures Prepend(xs, Prepend(ys, zs)) == Prepend(xs + ys, zs)
  {
    if zs.Some? {
      assert xs + (ys + zs.value) == xs + ys + zs.value;
    }
  }

  lemma {:induction false} DecodeConcat(xs: seq<Word>, ys: seq<Word>)
    requires Decode(xs).Some?
    ensures Decode(xs + ys) == Prepend(Decode(xs).value, Decode(ys))
    decreases |xs|
  {
    if xs == [] {
      assert xs + ys == ys;
      PrependNothing(Decode(ys));
    } else {
      var c, rest := xs[0], xs[1..];
      assert (xs + ys)[1..] == rest + ys;
      if Cells.DecodeTag(c) == Cells.TAG_LNT {
        var n := Cells.DecodeLnt(c);
        DecodeConcat(rest[n..], ys);
        assert (rest + ys)[..n] == rest[..n] && (rest + ys)[n..] == rest[n..] + ys;
        PrependTwice(Pushes(rest[..n]), Decode(rest[n..]).value, Decode(ys));
      } else {
        DecodeConcat(rest, ys);
        var a := if c % 4 == 0 then Exec(c) else Push(ToWord(Cells.DecodeLit(c)));
        PrependTwice([a], Decode(rest).value, Decode(ys));
      }
    }
  }

  lemma PrependNothing(ys: Option<seq<Action>>)
    ensures Prepend([], ys) == ys
  {
    if ys.Some? {
      assert [] + ys.value == ys.value;
    }
  }

  /** A packed run pushes each literal in turn, whatever its bits look like as a cell. */
  lemma RunDecodes(lits: seq<Int64>)
    requires 0 < |lits| < TWO_61
    ensures Decode([Cells.EncodeLnt(ToWord(|lits|))] + RawCells(lits)) == Some(Pushes(RawCells(lits)))
  {
    var n: Word := |lits|;
    assert ToWord(n) == n;
    hide Decode, Pushes, RawCells, ToWord, Cells.EncodeLnt, Cells.DecodeLnt, Cells.DecodeTag;
    Cells.LntRoundTrip(n);
    DecodeRun(Cells.EncodeLnt(n), RawCells(lits));
  }

  lemma DecodeRun(c: Word, raw: seq<Word>)
    requires Cells.DecodeTag(c) == Cells.TAG_LNT && Cells.DecodeLnt(c) == |raw|
    ensures Decode([c] + raw) == Some(Pushes(raw))
  {
    hide Pushes, Cells.DecodeLnt, Cells.DecodeTag;
    var all := [c] + raw;
    assert all[0] == c && all[1..] == raw;
    assert raw[..|raw|] == raw && raw[|raw|..] == [];
    EmptyDecodes();
    assert Pushes(raw) + [] == Pushes(raw);
  }

  lemma EmptyDecodes()
    ensures Decode([]) == Some([])
  {
  }

  lemma LoneDecodes(c: Word)
    requires c % 4 < 2
    ensures Decode([c]) == Some([if c % 4 == 0 then Exec(c) else Push(ToWord(Cells.DecodeLit(c)))])
  {
    var cells := [c];
    var a := if c % 4 == 0 then Exec(c) else Push(ToWord(Cells.DecodeLit(c)));
    assert cells[1..] == [];
    EmptyDecodes();
    assert Decode(cells) == Prepend([a], Decode([]));
    assert [a] + [] == [a];
  }

  /** One more cell for one more action. */
  lemma DecodeSnoc(ctx: seq<Word>, c: Word, a: Action)
    requires Decode(ctx).Some? && Decode([c]) == Some([a])
    ensures Decode(ctx + [c]) == Some(Decode(ctx).value + [a])
  {
    DecodeConcat(ctx, [c]);
  }

  /** Reading the stream back gives the emitted actions; raw cells are never read as tagged. */
  lemma {:induction false} GenExprDecodes(names: Names, ctx: seq<Word>, e: Expr)
    requires Decode(ctx).Some? && |GenExpr(names, ctx, e)| < TWO_61
    ensures Decode(GenExpr(names, ctx, e)) == Some(Decode(ctx).value + Emitted(names, e))
    decreases e, 1
  {
    hide Decode, Cells.EncodeLit, Cells.EncodeXt, Cells.DecodeLit;
    match e
    case ELit(v) =>
      var c := Cells.EncodeLit(v);
      LitDecodes(v);
      DecodeSnoc(ctx, c, Push(ToWord(Low62(v))));
    case EWord(name) =>
      var c := Cells.EncodeXt(WordAddr(names, name));
      Cells.XtRoundTrip(WordAddr(names, name));
      XtDecodes(WordAddr(names, name));
      DecodeSnoc(ctx, c, Exec(c));
    case ECall(name, args) =>
      var c := Cells.EncodeXt(names.primitive(name));
      GenArgsDecodes(names, ctx, args);
      XtDecodes(names.primitive(name));
      DecodeSnoc(GenArgs(names, ctx, args), c, Exec(c));
      assert Decode(ctx).value + EmittedArgs(names, args) + [Exec(c)]
        == Decode(ctx).value + (EmittedArgs(names, args) + [Exec(c)]);
    case ESeq(exprs) => GenListDecodes(names, ctx, exprs);
  }

  /** A name by itself goes where it is known to lead, and to its stand-in otherwise; in front
      of arguments it goes to its stand-in always. The two low bits of an address are lost. */
  lemma NamesLead(names: Names, name: string)
    ensures name in names.words ==>
      exists addr: Word :: Decode(GenExpr(names, [], EWord(name))) == Some([Exec(addr)]) && addr == names.words[name] / 4 * 4
    ensures name !in names.words ==>
      exists addr: Word :: Decode(GenExpr(names, [], EWord(name))) == Some([Exec(addr)]) && addr == names.primitive(name) / 4 * 4
    ensures exists addr: Word :: Decode(GenExpr(names, [], ECall(name, Nil))) == Some([Exec(addr)]) && addr == names.primitive(name) / 4 * 4
  {
    hide Decode;
    var known := Cells.EncodeXt(WordAddr(names, name));
    XtDecodes(WordAddr(names, name));
    assert [] + [known] == [known];
    assert GenExpr(names, [], EWord(name)) == [known];
    var standIn := Cells.EncodeXt(names.primitive(name));
    XtDecodes(names.primitive(name));
    assert [] + [standIn] == [standIn];
    assert GenExpr(names, [], ECall(name, Nil)) == [standIn];
  }

  lemma LitDecodes(v: Int64)
    ensures Decode([Cells.EncodeLit(v)]) == Some([Push(ToWord(Low62(v)))])
  {
    Cells.LitRoundTrip(v);
    LoneDecodes(Cells.EncodeLit(v));
  }

  lemma XtDecodes(addr: Word)
    ensures Decode([Cells.EncodeXt(addr)]) == Some([Exec(Cells.EncodeXt(addr))])
  {
    LoneDecodes(Cells.EncodeXt(addr));
  }

  lemma {:induction false} GenArgsDecodes(names: Names, ctx: seq<Word>, args: Exprs)
    requires Decode(ctx).Some? && |GenArgs(names, ctx, args)| < TWO_61
    ensures Decode(GenArgs(names, ctx, args)) == Some(Decode(ctx).value + EmittedArgs(names, args))
    decreases args, 0
  {
    hide Decode;
    match args
    case Nil => assert Decode(ctx).value + [] == Decode(ctx).value;
    case Cons(e, rest) =>
      var ctx' := GenExpr(names, ctx, e);
      GenArgsGrows(names, ctx', rest);
      GenExprDecodes(names, ctx, e);
      GenArgsDecodes(names, ctx', rest);
      assert Decode(ctx).value + Emitted(names, e) + EmittedArgs(names, rest)
        == Decode(ctx).value + (Emitted(names, e) + EmittedArgs(names, rest));
  }

  lemma {:induction false} GenListDecodes(names: Names, ctx: seq<Word>, exprs: Exprs)
    requires Decode(ctx).Some? && |GenExprList(names, ctx, exprs)| < TWO_61
    ensures Decode(GenExprList(names, ctx, exprs)) == Some(Decode(ctx).value + EmittedList(names, exprs))
    decreases exprs, 0
  {
    hide Decode, Cells.EncodeLnt, RawCells;
    if StartsRun(exprs) {
      var (lits, rest) := CollectLits(exprs);
      var run := [Cells.EncodeLnt(ToWord(|lits|))] + RawCells(lits);
      var ctx' := ctx + [Cells.EncodeLnt(ToWord(|lits|))] + RawCells(lits);
      assert ctx' == ctx + run;
      GenListGrows(names, ctx', rest);
      RunDecodes(lits);
      DecodeConcat(ctx, run);
      GenListDecodes(names, ctx', rest);
      assert Decode(ctx).value + Pushes(RawCells(lits)) + EmittedList(names, rest)
        == Decode(ctx).value + (Pushes(RawCells(lits)) + EmittedList(names, rest));
    } else if exprs.Cons? {
      var ctx' := GenExpr(names, ctx, exprs.head);
      GenListGrows(names, ctx', exprs.tail);
      GenExprDecodes(names, ctx, exprs.head);
      GenListDecodes(names, ctx', exprs.tail);
      assert Decode(ctx).value + Emitted(names, exprs.head) + EmittedList(names, exprs.tail)
        == Decode(ctx).value + (Emitted(names, exprs.head) + EmittedList(names, exprs.tail));
    } else {
      assert Decode(ctx).value + [] == Decode(ctx).value;
    }
  }

  lemma {:induction false} GenExprGrows(names: Names, ctx: seq<Word>, e: Expr)
    ensures ctx <= GenExpr(names, ctx, e)
    decreases e, 1
  {
    match e
    case ELit(_) =>
    case EWord(_) =>
    case ECall(_, args) => GenArgsGrows(names, ctx, args);
    case ESeq(exprs) => GenListGrows(names, ctx, exprs);
  }

  lemma {:induction false} GenArgsGrows(names: Names, ctx: seq<Word>, args: Exprs)
    ensures ctx <= GenArgs(names, ctx, args)
    decreases args, 0
  {
    if args.Cons? {
      GenExprGrows(names, ctx, args.head);
      GenArgsGrows(names, GenExpr(names, ctx, args.head), args.tail);
    }
  }

  lemma {:induction false} GenListGrows(names: Names, ctx: seq<Word>, exprs: Exprs)
    ensures ctx <= GenExprList(names, ctx, exprs)
    decreases exprs, 0
  {
    if StartsRun(exprs) {
      var (lits, rest) := CollectLits(exprs);
      GenListGrows(names, ctx + [Cells.EncodeLnt(ToWord(|lits|))] + RawCells(lits), rest);
    } else if exprs.Cons? {
      GenExprGrows(names, ctx, exprs.head);
      GenListGrows(names, GenExpr(names, ctx, exprs.head), exprs.tail);
    }
  }

  // ----- On the machine -----

  /** What executing an address does to the data stack, where that is known. */
  type Behaviour = (Word, seq<Word>) -> Option<seq<Word>>

  function Perform(f: Behaviour, actions: seq<Action>, ds: seq<Word>): Option<seq<Word>>
    decreases |actions|
  {
    if actions == [] then Some(ds)
    else match actions[0]
      case Push(w) => Perform(f, actions[1..], [w] + ds)
      case Exec(addr) =>
        match f(addr, ds)
        case None => None
        case Some(ds') => Perform(f, actions[1..], ds')
  }

  ghost predicate Reaches(m: Vm.Image, s: Vm.State, t: Vm.State) {
    exists n: nat :: Vm.Run(m, s, n) == t
  }

  /** Primitives and words come back to the caller with the data stack f says. */
  ghost predicate Behaves(m: Vm.Image, f: Behaviour) {
    forall addr: Word, ip: Word, ds: seq<Word>, rs: seq<Word> | f(addr, ds).Some? :: ReturnsFrom(m, f, addr, ip, ds, rs)
  }

  ghost predicate ReturnsFrom(m: Vm.Image, f: Behaviour, addr: Word, ip: Word, ds: seq<Word>, rs: seq<Word>)
    requires f(addr, ds).Some?
  {
    Reaches(m, Vm.Execute(m, Vm.Regs(ip, ds, rs, Vm.Running), addr), Vm.Regs(ip, f(addr, ds).value, rs, Vm.Running))
  }

  ghost predicate StreamAt(m: Vm.Image, base: Word, cells: seq<Word>) {
    base + 8 * |cells| < TWO_64 &&
    forall i | 0 <= i < |cells| :: Vm.Cell(base, i) in m.code && m.code[Vm.Cell(base, i)] == cells[i]
  }

  lemma StreamTail(m: Vm.Image, base: Word, cells: seq<Word>, k: nat)
    requires StreamAt(m, base, cells) && k <= |cells|
    ensures StreamAt(m, Vm.Cell(base, k), cells[k..])
    ensures Vm.Cell(Vm.Cell(base, k), |cells| - k) == Vm.Cell(base, |cells|)
  {
    hide Vm.Cell;
    NextCell(base, k, |cells| - k);
    CellBelow(base, k);
    var rest := cells[k..];
    forall i | 0 <= i < |rest|
      ensures Vm.Cell(Vm.Cell(base, k), i) in m.code && m.code[Vm.Cell(Vm.Cell(base, k), i)] == rest[i]
    {
      NextCell(base, k, i);
      assert rest[i] == cells[k + i];
    }
  }

  lemma NextCell(base: Word, k: nat, i: int)
    requires base + 8 * k < TWO_64
    ensures Vm.Cell(Vm.Cell(base, k), i) == Vm.Cell(base, k + i)
  {
  }

  lemma CellBelow(base: Word, k: nat)
    requires base + 8 * k < TWO_64
    ensures Vm.Cell(base, k) == base + 8 * k
  {
  }

  lemma ReachesTransitive(m: Vm.Image, s: Vm.State, t: Vm.State, u: Vm.State)
    requires Reaches(m, s, t) && Reaches(m, t, u)
    ensures Reaches(m, s, u)
  {
    var j: nat :| Vm.Run(m, s, j) == t;
    var k: nat :| Vm.Run(m, t, k) == u;
    Vm.RunAdd(m, s, j, k);
    assert Vm.Run(m, s, j + k) == u;
  }

  lemma StepReaches(m: Vm.Image, s: Vm.State)
    ensures Reaches(m, s, Vm.Step(m, s))
  {
    assert Vm.Run(m, Vm.Step(m, s), 0) == Vm.Step(m, s);
    assert Vm.Run(m, s, 1) == Vm.Step(m, s);
  }

  lemma {:induction false} RawRun(m: Vm.Image, base: Word, raw: seq<Word>, f: Behaviour, more: seq<Action>,
                                  ds: seq<Word>, rs: seq<Word>) returns (ds': seq<Word>)
    requires StreamAt(m, base, raw)
    ensures Vm.PushRaw(m, Vm.Regs(base, ds, rs, Vm.Running), |raw|)
      == Vm.Regs(Vm.Cell(base, |raw|), ds', rs, Vm.Running)
    ensures Perform(f, Pushes(raw) + more, ds) == Perform(f, more, ds')
    decreases |raw|
  {
    hide StreamAt, Vm.Cell, Perform;
    if raw == [] {
      ds' := ds;
      assert Pushes(raw) + more == more;
      CellAtZero(base);
    } else {
      StreamHead(m, base, raw);
      StreamTail(m, base, raw, 1);
      assert Pushes(raw) + more == [Push(raw[0])] + (Pushes(raw[1..]) + more);
      PerformFirst(f, Push(raw[0]), Pushes(raw[1..]) + more, ds);
      ds' := RawRun(m, Vm.Cell(base, 1), raw[1..], f, more, [raw[0]] + ds, rs);
    }
  }

  lemma CellAtZero(base: Word)
    ensures Vm.Cell(base, 0) == base
  {
  }

  lemma StreamHead(m: Vm.Image, base: Word, cells: seq<Word>)
    requires StreamAt(m, base, cells) && cells != []
    ensures base in m.code && m.code[base] == cells[0]
  {
    assert Vm.Cell(base, 0) == base;
  }

  /** A stream runs to its end with the data stack its actions make one by one. */
  lemma {:induction false} StreamRuns(m: Vm.Image, f: Behaviour, base: Word, cells: seq<Word>,
                                      ds: seq<Word>, rs: seq<Word>)
    requires Behaves(m, f) && StreamAt(m, base, cells) && Decode(cells).Some?
    requires Perform(f, Decode(cells).value, ds).Some?
    ensures Reaches(m, Vm.Regs(base, ds, rs, Vm.Running),
                    Vm.Regs(Vm.Cell(base, |cells|), Perform(f, Decode(cells).value, ds).value, rs, Vm.Running))
    decreases |cells|
  {
    var s := Vm.Regs(base, ds, rs, Vm.Running);
    assert Vm.Cell(base, 0) == base;
    if cells == [] {
      assert Vm.Run(m, s, 0) == s;
    } else {
      var k, ds' := FirstActions(m, f, base, cells, ds, rs);
      StreamTail(m, base, cells, k);
      StreamRuns(m, f, Vm.Cell(base, k), cells[k..], ds', rs);
      ReachesTransitive(m, s, Vm.Regs(Vm.Cell(base, k), ds', rs, Vm.Running),
                        Vm.Regs(Vm.Cell(base, |cells|), Perform(f, Decode(cells).value, ds).value, rs, Vm.Running));
    }
  }

  /** One turn of the dispatch loop, and a call's return, use up the first cell or run. */
  lemma FirstActions(m: Vm.Image, f: Behaviour, base: Word, cells: seq<Word>, ds: seq<Word>, rs: seq<Word>)
    returns (k: nat, ds': seq<Word>)
    requires cells != [] && Behaves(m, f) && StreamAt(m, base, cells) && Decode(cells).Some?
    requires Perform(f, Decode(cells).value, ds).Some?
    ensures 1 <= k <= |cells| && Decode(cells[k..]).Some?
    ensures Perform(f, Decode(cells).value, ds) == Perform(f, Decode(cells[k..]).value, ds')
    ensures Reaches(m, Vm.Regs(base, ds, rs, Vm.Running), Vm.Regs(Vm.Cell(base, k), ds', rs, Vm.Running))
  {
    hide Behaves, Vm.Step, Vm.Cell, Vm.PushRaw, Vm.Execute, Decode, Cells.DecodeTag, StreamAt, Perform, Reaches;
    var s := Vm.Regs(base, ds, rs, Vm.Running);
    var c, rest := cells[0], cells[1..];
    StepOnCell(m, base, cells, ds, rs);
    StepReaches(m, s);
    if Cells.DecodeTag(c) == Cells.TAG_LNT {
      DecodeFirstRun(cells);
      var n := Cells.DecodeLnt(c);
      k := 1 + n;
      assert cells[k..] == rest[n..];
      StreamTail(m, base, cells, 1);
      StreamPrefix(m, Vm.Cell(base, 1), rest, n);
      CellPlus(base, cells, n);
      ds' := RawRun(m, Vm.Cell(base, 1), rest[..n], f, Decode(rest[n..]).value, ds, rs);
    } else {
      k := 1;
      DecodeFirstLone(cells);
      PerformFirst(f, ActionOf(c), Decode(rest).value, ds);
      if c % 4 == 0 {
        ds' := f(c, ds).value;
        Returned(m, f, c, Vm.Cell(base, 1), ds, rs);
        ReachesTransitive(m, s, Vm.Step(m, s), Vm.Regs(Vm.Cell(base, 1), ds', rs, Vm.Running));
      } else {
        ds' := [ToWord(Cells.DecodeLit(c))] + ds;
      }
    }
  }

  lemma CellPlus(base: Word, cells: seq<Word>, n: nat)
    requires base + 8 * |cells| < TWO_64 && n < |cells|
    ensures Vm.Cell(Vm.Cell(base, 1), n) == Vm.Cell(base, 1 + n)
  {
  }

  lemma StepOnCell(m: Vm.Image, base: Word, cells: seq<Word>, ds: seq<Word>, rs: seq<Word>)
    requires cells != [] && StreamAt(m, base, cells)
    ensures base + 8 * |cells| < TWO_64
    ensures var c, next := cells[0], Vm.Regs(Vm.Cell(base, 1), ds, rs, Vm.Running);
      var t := Vm.Step(m, Vm.Regs(base, ds, rs, Vm.Running));
      && (Cells.DecodeTag(c) == Cells.TAG_LNT ==> t == Vm.PushRaw(m, next, Cells.DecodeLnt(c)))
      && (c % 4 == 0 ==> t == Vm.Execute(m, next, c))
      && (c % 4 == 1 ==> t == next.(ds := [ToWord(Cells.DecodeLit(c))] + ds))
  {
    assert Vm.Cell(base, 0) == base;
  }

  lemma DecodeFirstRun(cells: seq<Word>)
    requires cells != [] && Decode(cells).Some? && Cells.DecodeTag(cells[0]) == Cells.TAG_LNT
    ensures Cells.DecodeLnt(cells[0]) <= |cells[1..]| && Decode(cells[1..][Cells.DecodeLnt(cells[0])..]).Some?
    ensures Decode(cells).value == Pushes(cells[1..][..Cells.DecodeLnt(cells[0])])
      + Decode(cells[1..][Cells.DecodeLnt(cells[0])..]).value
  {
  }

  lemma DecodeFirstLone(cells: seq<Word>)
    requires cells != [] && Decode(cells).Some? && Cells.DecodeTag(cells[0]) != Cells.TAG_LNT
    ensures cells[0] % 4 < 2 && Decode(cells[1..]).Some?
    ensures Decode(cells).value == [ActionOf(cells[0])] + Decode(cells[1..]).value
  {
  }

  function ActionOf(c: Word): Action {
    if c % 4 == 0 then Exec(c) else Push(ToWord(Cells.DecodeLit(c)))
  }

  lemma PerformFirst(f: Behaviour, a: Action, more: seq<Action>, ds: seq<Word>)
    ensures a.Push? ==> Perform(f, [a] + more, ds) == Perform(f, more, [a.w] + ds)
    ensures a.Exec? && f(a.addr, ds).Some? ==> Perform(f, [a] + more, ds) == Perform(f, more, f(a.addr, ds).value)
    ensures a.Exec? && f(a.addr, ds).None? ==> Perform(f, [a] + more, ds) == None
  {
    assert ([a] + more)[1..] == more;
  }

  lemma Returned(m: Vm.Image, f: Behaviour, addr: Word, ip: Word, ds: seq<Word>, rs: seq<Word>)
    requires Behaves(m, f) && f(addr, ds).Some?
    ensures ReturnsFrom(m, f, addr, ip, ds, rs)
  {
  }

  lemma StreamPrefix(m: Vm.Image, base: Word, cells: seq<Word>, k: nat)
    requires StreamAt(m, base, cells) && k <= |cells|
    ensures StreamAt(m, base, cells[..k])
  {
  }

  /** Where the EXIT of a word leads: back to the caller, or to a halt when there is none. */
  function Exited(end: Word, ds: seq<Word>, rs: seq<Word>): Vm.State {
    if rs == [] then Vm.Regs(Vm.Cell(end, 1), ds, rs, Vm.Halted) else Vm.Regs(rs[0], ds, rs[1..], Vm.Running)
  }

  /** A generated word does to the data stack what pushing each literal and executing each
      name in turn would do, and returns. */
  lemma GeneratedWordRuns(m: Vm.Image, f: Behaviour, names: Names, body: Exprs, base: Word,
                          ds: seq<Word>, rs: seq<Word>, result: seq<Word>)
    requires Behaves(m, f) && StreamAt(m, base, GenWordDef(names, body)) && ListFits(body)
    requires Perform(f, ListActions(names, body), ds) == Some(result)
    ensures var end := Vm.Cell(base, |GenWordDef(names, body)| - 1);
      && end in m.code && m.code[end] == Cells.EXIT
      && Reaches(m, Vm.Regs(base, ds, rs, Vm.Running), Vm.Regs(end, result, rs, Vm.Running))
      && Reaches(m, Vm.Regs(base, ds, rs, Vm.Running), Exited(end, result, rs))
  {
    var cells := GenExprList(names, [], body);
    var all := GenWordDef(names, body);
    EmptyDecodes();
    GenListDecodes(names, [], body);
    ListIsMeantIff(names, body);
    assert [] + EmittedList(names, body) == EmittedList(names, body);
    StreamPrefix(m, base, all, |cells|);
    assert all[..|cells|] == cells;
    StreamRuns(m, f, base, cells, ds, rs);
    assert all[|cells|] == Cells.EXIT;
    var end := Vm.Regs(Vm.Cell(base, |cells|), result, rs, Vm.Running);
    StepReaches(m, end);
    ReachesTransitive(m, Vm.Regs(base, ds, rs, Vm.Running), end, Vm.Step(m, end));
  }
}
