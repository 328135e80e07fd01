/** Running a word by name (src/runner.c): compile, link, and hand the machine a two-cell
    stream that calls the word. */
module Runner {
  import opened Words
  import opened Blob
  import opened Wrappers
  import opened Language
  import opened Compiler
  import opened Linkage
  import opened Room
  import opened Unfolding
  import opened Simulation
  import opened Session
  import opened Frames
  import opened LanguageLaws
  import Cells
  import Vm
  import Loader

  /** The word, run on its own, leaves this data stack. */
  ghost predicate Means(p: Prog, ds: seq<Word>, result: seq<Word>) {
    exists fuel: nat :: Eval(p, ds, [], fuel) == Done(result, [])
  }

  /** The word never reads the return stack below its own frame, nor leaves it unbalanced. */
  ghost predicate StaysInFrame(p: Prog, ds: seq<Word>) {
    forall fuel: nat :: Balanced(Eval(p, ds, [], fuel))
  }

  predicate Balanced(o: Outcome) {
    !o.Escape? && (o.Done? ==> o.rs == [])
  }

  /** The machine stops of its own accord with this data stack and an empty return stack. */
  ghost predicate HaltsWith(m: Vm.Image, s: Vm.State, result: seq<Word>) {
    exists n: nat :: IsHalt(Vm.Run(m, s, n), result)
  }

  predicate IsHalt(s: Vm.State, result: seq<Word>) {
    s.status == Vm.Halted && s.ds == result && s.rs == []
  }

  /** The bootstrap stream: call the wrapper, then EXIT. */
  ghost predicate Bootstrap(l: Link, boot: Word, addr: Word) {
    && boot + 8 < USER_SPACE
    && Holds(l.image.code, boot, 0, Cells.EncodeXt(addr))
    && Holds(l.image.code, boot, 1, Cells.EXIT)
  }

  ghost predicate Loaded(l: Link, h: Hash, p: Prog, addr: Word) {
    && Ready(l, h, p)
    && HasRecord(l.store, h, Record(KIND_WORD, Encode(Code(h, p))))
    && Denotes(l, h(Encode(Code(h, p))), addr)
  }

  /** Where the machine is, after some number of steps, for each outcome of the word. */
  lemma BootstrapRun(l: Link, h: Hash, p: Prog, addr: Word, boot: Word, ds: seq<Word>, fuel: nat) returns (n: nat)
    requires Loaded(l, h, p, addr) && Bootstrap(l, boot, addr)
    ensures var r := Vm.Run(l.image, At(boot, ds, []), n);
      match Eval(Truncate(p), ds, [], fuel)
      case Done(ds', rs') => rs' == [] ==> IsHalt(r, ds')
      case Trap => r.status == Vm.Fault
      case Timeout => n >= fuel && r.status == Vm.Running
      case Escape => true
  {
    hide Denotes, Ok, Structured, Stored, Span, Encode, Code, Eval, Vm.Cell;
    Entered(l, h, p, addr);
    var m, back := l.image, Vm.Cell(boot, 1);
    var s0 := At(boot, ds, []);
    var start := At(m.words[addr], ds, [back]);
    FirstStep(l, boot, addr, ds);
    RunOne(m, s0);
    n := SimulateBody(l, h, p, m.words[addr], back, ds, [], fuel);
    assert [back] + [] == [back];
    Vm.RunAdd(m, s0, 1, n);
    n := 1 + n;
    var o := Eval(Truncate(p), ds, [], fuel);
    if o.Done? && o.rs == [] {
      RunThen(m, s0, n, At(back, o.ds, []), Vm.Step(m, At(back, o.ds, [])));
      n := n + 1;
    }
  }

  lemma FirstStep(l: Link, boot: Word, addr: Word, ds: seq<Word>)
    requires Bootstrap(l, boot, addr) && CallableAddr(l, addr) && addr in l.image.words
    ensures Vm.Step(l.image, At(boot, ds, [])) == At(l.image.words[addr], ds, [Vm.Cell(boot, 1)])
  {
    CellZero(boot);
  }

  lemma OneEnd(m: Vm.Image, s: Vm.State, j: nat, k: nat)
    requires Vm.Run(m, s, j).status != Vm.Running && Vm.Run(m, s, k).status != Vm.Running
    ensures Vm.Run(m, s, j) == Vm.Run(m, s, k)
  {
    var low, high := if j <= k then j else k, if j <= k then k else j;
    Vm.RunAdd(m, s, low, high - low);
    Vm.StoppedStays(m, Vm.Run(m, s, low), high - low);
  }

  lemma StillStopped(m: Vm.Image, s: Vm.State, j: nat, k: nat)
    requires Vm.Run(m, s, j).status != Vm.Running && j <= k
    ensures Vm.Run(m, s, k).status != Vm.Running
  {
    Vm.RunAdd(m, s, j, k - j);
    Vm.StoppedStays(m, Vm.Run(m, s, j), k - j);
  }

  /** The run of any linked word that stays in its frame. */
  lemma FramedWordRuns(l: Link, h: Hash, p: Prog, addr: Word, boot: Word, ds: seq<Word>, result: seq<Word>)
    requires Loaded(l, h, p, addr) && Bootstrap(l, boot, addr)
    ensures Means(Truncate(p), ds, result) ==> HaltsWith(l.image, At(boot, ds, []), result)
    ensures StaysInFrame(Truncate(p), ds) && HaltsWith(l.image, At(boot, ds, []), result)
      ==> Means(Truncate(p), ds, result)
  {
    hide Loaded, Bootstrap;
    var m, s0 := l.image, At(boot, ds, []);
    if Means(Truncate(p), ds, result) {
      var fuel: nat :| Eval(Truncate(p), ds, [], fuel) == Done(result, []);
      var n := BootstrapRun(l, h, p, addr, boot, ds, fuel);
      assert IsHalt(Vm.Run(m, s0, n), result);
    }
    if StaysInFrame(Truncate(p), ds) && HaltsWith(m, s0, result) {
      var n: nat :| IsHalt(Vm.Run(m, s0, n), result);
      var k := BootstrapRun(l, h, p, addr, boot, ds, n + 1);
      var o := Eval(Truncate(p), ds, [], n + 1);
      assert Balanced(o);
      if o.Timeout? {
        StillStopped(m, s0, n, k);
        assert false;
      }
      OneEnd(m, s0, n, k);
      assert o == Done(result, []);
    }
  }

  ghost predicate RunsOn(m: Vm.Image, s: Vm.State, n: nat) {
    Vm.Run(m, s, n).status == Vm.Running
  }

  ghost predicate RunsForever(m: Vm.Image, s: Vm.State) {
    forall n: nat :: RunsOn(m, s, n)
  }

  ghost predicate NeverDone(p: Prog, ds: seq<Word>) {
    forall fuel: nat :: TimesOut(p, ds, fuel)
  }

  ghost predicate FaultsAt(m: Vm.Image, s: Vm.State, n: nat) {
    Vm.Run(m, s, n).status == Vm.Fault
  }

  ghost predicate TimesOut(p: Prog, ds: seq<Word>, fuel: nat) {
    Eval(p, ds, [], fuel).Timeout?
  }

  ghost predicate Traps(p: Prog, ds: seq<Word>, fuel: nat) {
    Eval(p, ds, [], fuel).Trap?
  }

  // ----- Tidy words -----

  lemma TidyStays(p: Prog, ds: seq<Word>)
    requires Tidy(p, false)
    ensures StaysInFrame(p, ds)
  {
    forall fuel: nat
      ensures Balanced(Eval(p, ds, [], fuel))
    {
      TidyKeeps(p, false, ds, [], fuel);
    }
  }

  /** Cutting literals leaves a program tidy. */
  lemma {:induction false} TidyTruncated(p: Prog, inLoop: bool)
    ensures Tidy(Truncate(p), inLoop) <==> Tidy(p, inLoop)
    decreases p, 0
  {
    match p
    case End =>
    case Then(s, rest) =>
      TidyStmtTruncated(s, inLoop);
      TidyTruncated(rest, inLoop);
  }

  lemma {:induction false} TidyStmtTruncated(s: Stmt, inLoop: bool)
    ensures TidyStmt(TruncateStmt(s), inLoop) <==> TidyStmt(s, inLoop)
    decreases s, 1
  {
    match s
    case Lit(_) =>
    case Prim(_) =>
    case Call(body) => TidyTruncated(body, false);
    case If(yes, no) => TidyTruncated(yes, inLoop); TidyTruncated(no, inLoop);
    case Times(body) => TidyTruncated(body, true);
    case Until(cond, body) => TidyTruncated(cond, inLoop); TidyTruncated(body, inLoop);
  }

  /** Compiler, linker and machine together: the run of a linked tidy word halts with a data
      stack, and an empty return stack, exactly when the word's tree, its literals cut to
      62 bits, means that stack. */
  lemma WordRuns(l: Link, h: Hash, p: Prog, addr: Word, boot: Word, ds: seq<Word>, result: seq<Word>)
    requires Loaded(l, h, p, addr) && Bootstrap(l, boot, addr) && Tidy(p, false)
    ensures HaltsWith(l.image, At(boot, ds, []), result) <==> Means(Truncate(p), ds, result)
  {
    TidyTruncated(p, false);
    TidyStays(Truncate(p), ds);
    FramedWordRuns(l, h, p, addr, boot, ds, result);
  }

  /** For programs of 62-bit literals the machine computes the program itself. */
  lemma SmallWordRuns(l: Link, h: Hash, p: Prog, addr: Word, boot: Word, ds: seq<Word>, result: seq<Word>)
    requires Loaded(l, h, p, addr) && Bootstrap(l, boot, addr) && Small(p) && Tidy(p, false)
    ensures HaltsWith(l.image, At(boot, ds, []), result) <==> Means(p, ds, result)
  {
    TruncateIsIdentityIff(p);
    WordRuns(l, h, p, addr, boot, ds, result);
  }

  /** The machine runs for ever exactly when no fuel is enough for the word. */
  lemma WordRunsForever(l: Link, h: Hash, p: Prog, addr: Word, boot: Word, ds: seq<Word>)
    requires Loaded(l, h, p, addr) && Bootstrap(l, boot, addr) && Tidy(p, false)
    ensures RunsForever(l.image, At(boot, ds, [])) <==> NeverDone(Truncate(p), ds)
  {
    hide Loaded, Bootstrap, RunsForever, NeverDone;
    if NeverDone(Truncate(p), ds) {
      NeverStops(l, h, p, addr, boot, ds);
    }
    if RunsForever(l.image, At(boot, ds, [])) {
      NeverEnds(l, h, p, addr, boot, ds);
    }
  }

  lemma NeverStops(l: Link, h: Hash, p: Prog, addr: Word, boot: Word, ds: seq<Word>)
    requires Loaded(l, h, p, addr) && Bootstrap(l, boot, addr) && NeverDone(Truncate(p), ds)
    ensures RunsForever(l.image, At(boot, ds, []))
  {
    hide Loaded, Bootstrap, Eval, Vm.Run;
    var m, s0 := l.image, At(boot, ds, []);
    forall n: nat
      ensures RunsOn(m, s0, n)
    {
      assert TimesOut(Truncate(p), ds, n);
      var k := BootstrapRun(l, h, p, addr, boot, ds, n);
      if !RunsOn(m, s0, n) {
        StillStopped(m, s0, n, k);
      }
    }
  }

  lemma NeverEnds(l: Link, h: Hash, p: Prog, addr: Word, boot: Word, ds: seq<Word>)
    requires Loaded(l, h, p, addr) && Bootstrap(l, boot, addr) && Tidy(p, false)
    requires RunsForever(l.image, At(boot, ds, []))
    ensures NeverDone(Truncate(p), ds)
  {
    hide Loaded, Bootstrap, Eval, Vm.Run;
    TidyTruncated(p, false);
    TidyStays(Truncate(p), ds);
    forall fuel: nat
      ensures TimesOut(Truncate(p), ds, fuel)
    {
      var n := BootstrapRun(l, h, p, addr, boot, ds, fuel);
      assert RunsOn(l.image, At(boot, ds, []), n);
      assert Balanced(Eval(Truncate(p), ds, [], fuel));
    }
  }

  /** The machine faults exactly when the word traps. */
  lemma WordFaults(l: Link, h: Hash, p: Prog, addr: Word, boot: Word, ds: seq<Word>)
    requires Loaded(l, h, p, addr) && Bootstrap(l, boot, addr) && Tidy(p, false)
    ensures (exists n: nat :: FaultsAt(l.image, At(boot, ds, []), n)) <==> exists fuel: nat :: Traps(Truncate(p), ds, fuel)
  {
    hide Loaded, Bootstrap, Eval, Vm.Run;
    var m, s0 := l.image, At(boot, ds, []);
    if fuel: nat :| Traps(Truncate(p), ds, fuel) {
      var n := BootstrapRun(l, h, p, addr, boot, ds, fuel);
      assert FaultsAt(m, s0, n);
    }
    if n: nat :| FaultsAt(m, s0, n) {
      TidyTruncated(p, false);
      TidyStays(Truncate(p), ds);
      var k := BootstrapRun(l, h, p, addr, boot, ds, n + 1);
      var o := Eval(Truncate(p), ds, [], n + 1);
      assert Balanced(o);
      if o.Timeout? {
        StillStopped(m, s0, n, k);
        assert false;
      }
      OneEnd(m, s0, n, k);
      assert Traps(Truncate(p), ds, n + 1);
    }
  }

  // ----- The counter, on the machine -----

  const COUNTER_WORD: Prog := Then(Times(READ_COUNTER), End)

  function UpTo(n: nat): seq<Word>
    requires n < 0x1_0000_0000_0000_0000
  {
    seq(n, i requires 0 <= i < n => i)
  }

  /** ( i0 ) times, called on any n, halts with 0, 1, ..., n-1 on top of what was there. */
  lemma CounterWordRuns(l: Link, h: Hash, addr: Word, boot: Word, n: Word, ds: seq<Word>)
    requires Loaded(l, h, COUNTER_WORD, addr) && Bootstrap(l, boot, addr)
    ensures HaltsWith(l.image, At(boot, [n] + ds, []), UpTo(n) + ds)
  {
    hide Loaded, Bootstrap, HaltsWith, Eval;
    CounterMeans(n, ds);
    assert Means(COUNTER_WORD, [n] + ds, UpTo(n) + ds);
    SmallWordRuns(l, h, COUNTER_WORD, addr, boot, [n] + ds, UpTo(n) + ds);
  }

  /** n ( i0 ) times, for a number that fits its cell. */
  lemma NumberedCounterRuns(l: Link, h: Hash, addr: Word, boot: Word, n: Int64, ds: seq<Word>)
    requires 0 <= n < 0x2000_0000_0000_0000
    requires Loaded(l, h, Then(Lit(n), COUNTER_WORD), addr) && Bootstrap(l, boot, addr)
    ensures HaltsWith(l.image, At(boot, ds, []), UpTo(n) + ds)
  {
    hide Loaded, Bootstrap, HaltsWith, Eval;
    var p := Then(Lit(n), COUNTER_WORD);
    assert Eval(p, ds, [], n) == Done(UpTo(n) + ds, []) by {
      var w := LitLaw(n, COUNTER_WORD, ds, [], n);
      CounterMeans(n, ds);
    }
    assert Means(p, ds, UpTo(n) + ds);
    assert Small(p) && Tidy(p, false);
    SmallWordRuns(l, h, p, addr, boot, ds, UpTo(n) + ds);
  }

  lemma CounterMeans(n: Word, ds: seq<Word>)
    ensures Eval(COUNTER_WORD, [n] + ds, [], n) == Done(UpTo(n) + ds, [])
  {
    CounterLoop(n, ds, []);
  }

  // ----- Running in a session -----

  datatype Report =
    | Finished(ds: seq<Word>)
    | StillRunning   // not stopped within the given turns of the dispatch loop
    | Faulted        // left what the machine model describes
    | NoMemory

  /** The report tells how far the machine has come. */
  predicate Shows(r: Report, s: Vm.State) {
    match r
    case Finished(ds) => IsHalt(s, ds)
    case StillRunning => s.status == Vm.Running
    case Faulted => s.status == Vm.Fault
    case NoMemory => false
  }

  /** Where a word was linked, and where the stream that calls it stands. */
  datatype Placed = Placed(l: Link, addr: Word, boot: Word)

  ghost predicate Started(at: Placed, h: Hash, p: Prog) {
    Loaded(at.l, h, p, at.addr) && Bootstrap(at.l, at.boot, at.addr)
  }

  function After(at: Placed, ds: seq<Word>, turns: nat): Vm.State {
    Vm.Run(at.l.image, At(at.boot, ds, []), turns)
  }

  /** What a report says of a tidy word. */
  lemma ReportsMean(at: Placed, h: Hash, p: Prog, ds: seq<Word>, turns: nat, r: Report)
    requires Started(at, h, p) && Tidy(p, false) && Shows(r, After(at, ds, turns))
    ensures r.Finished? ==> Means(Truncate(p), ds, r.ds)
    ensures r.Faulted? ==> exists fuel: nat :: Traps(Truncate(p), ds, fuel)
  {
    hide Loaded, Bootstrap;
    if r.Finished? {
      WordRuns(at.l, h, p, at.addr, at.boot, ds, r.ds);
    }
    if r.Faulted? {
      assert FaultsAt(at.l.image, At(at.boot, ds, []), turns);
      WordFaults(at.l, h, p, at.addr, at.boot, ds);
    }
  }

  /** Every report from some number of turns on is the word's meaning. */
  lemma FinishesInTime(at: Placed, h: Hash, p: Prog, ds: seq<Word>, result: seq<Word>) returns (enough: nat)
    requires Started(at, h, p) && Means(Truncate(p), ds, result)
    ensures forall turns: nat, r | turns >= enough && Shows(r, After(at, ds, turns)) :: r == Finished(result)
  {
    hide Loaded, Bootstrap;
    FramedWordRuns(at.l, h, p, at.addr, at.boot, ds, result);
    var m, s0 := at.l.image, At(at.boot, ds, []);
    enough :| IsHalt(Vm.Run(m, s0, enough), result);
    forall turns: nat, r | turns >= enough && Shows(r, After(at, ds, turns))
      ensures r == Finished(result)
    {
      StillStopped(m, s0, enough, turns);
      OneEnd(m, s0, enough, turns);
    }
  }

  class Runner {
    const emitter: Emitter
    const loader: Loader.LoaderState
    ghost var hist: seq<Record>   // everything the session has stored

    ghost predicate Valid()
      reads this, emitter, emitter.blob, loader, loader.cache, loader.cache.buckets, loader.space
    {
      && emitter.Valid() && emitter.db == PutAll(emitter.hash, map[], hist) && loader.store == emitter.db
      && Closed(emitter.hash, hist) && Agree(emitter.hash, map[], hist)
      && RegisteredAll(loader.table, hist) && CONTROL <= loader.table.Keys
      && loader.Valid(OrderOf(emitter.hash, hist)) && loader.Tallied([])
    }

    /** runner_create, in an empty session. */
    constructor (hash: Hash, table: map<U16, Word>, prims: map<Word, U16>)
      requires TableOk(Link(map[], table, map[], map[], Vm.Image(map[], prims, map[]))) && CONTROL <= table.Keys
      ensures Valid() && hist == [] && emitter.hash == hash && loader.table == table && loader.space.image.prims == prims
      ensures fresh(emitter) && fresh(emitter.blob) && fresh(loader) && fresh(loader.cache) && fresh(loader.cache.buckets) && fresh(loader.space)
    {
      emitter := new Emitter(hash, map[]);
      loader := new Loader.LoaderState(map[], table, prims, OrderOf(hash, []));
      hist := [];
    }

    /** runner_execute: compile the word, link it with what was linked before, and run it.
        There is no memory only when the database is too large for it; otherwise the report
        is what the machine shows after so many turns. */
    method Execute(p: Prog, stack: seq<Word>, turns: nat) returns (report: Report, ghost at: Placed)
      requires Valid() && Structured(p) && Uses(loader.table, p)
      requires Agree(emitter.hash, map[], hist + RecordsStmt(emitter.hash, Call(p)))
      modifies this, emitter, emitter.blob, loader, loader.cache, loader.cache.buckets, loader.space
      ensures Valid() && hist == old(hist) + RecordsStmt(emitter.hash, Call(p))
      ensures emitter.blob == old(emitter.blob) && loader.space.image.prims == old(loader.space.image.prims)
      ensures report == NoMemory ==> NoRoom(emitter.db, loader.space.image.prims)
      ensures report != NoMemory ==> Started(at, emitter.hash, p) && Shows(report, After(at, stack, turns)) && Extends(loader.View(), at.l)
      ensures Tidy(p, false) && report.Finished? ==> Means(Truncate(p), stack, report.ds)
      ensures Tidy(p, false) && report.Faulted? ==> exists fuel: nat :: Traps(Truncate(p), stack, fuel)
    {
      hide Encode, Code, Records, RecordsStmt, Parse, Closed, Agree, GoodStore, Structured, Stored, Uses, Resolves, Grown, RegisteredAll, PutAll,
        OrderOf, Shows, Started, After, NoRoom, Loader.LoaderState.Valid, Loader.LoaderState.Tallied, Loader.LoaderState.View;
      ghost var h, old_, all := emitter.hash, hist, hist + RecordsStmt(emitter.hash, Call(p));
      var cid := CompileWord(emitter, p);
      SessionGrows(h, loader.table, p, old_);
      loader.KnownStored(OrderOf(h, old_));
      hist := all;
      loader.Refresh(emitter.db, OrderOf(h, old_), OrderOf(h, all));
      report, at := LinkAndRun(loader, cid, stack, turns, h, p, OrderOf(h, all));
      if report != NoMemory && Tidy(p, false) {
        ReportsMean(at, h, p, stack, turns, report);
      }
    }
  }

  /** Link the CID and run the bootstrap stream, two cells of the caller's own. */
  method LinkAndRun(loader: Loader.LoaderState, cid: Cid, stack: seq<Word>, turns: nat, ghost h: Hash, ghost p: Prog, ghost rank: Rank)
    returns (report: Report, ghost at: Placed)
    requires loader.Valid(rank) && loader.Tallied([]) && Resolves(loader.store, loader.table, rank, cid)
    requires Structured(p) && Stored(loader.store, h, p)
    requires HasRecord(loader.store, h, Record(KIND_WORD, Encode(Code(h, p)))) && cid == h(Encode(Code(h, p)))
    modifies loader`outOfMemory, loader`order, loader.space, loader.cache, loader.cache.buckets
    ensures loader.Valid(rank) && loader.Tallied([]) && Extends(old(loader.View()), loader.View())
    ensures loader.space.image.prims == old(loader.space.image.prims)
    ensures report == NoMemory ==> NoRoom(loader.store, loader.space.image.prims)
    ensures report != NoMemory ==> Started(at, h, p) && Shows(report, After(at, stack, turns)) && Extends(loader.View(), at.l)
  {
    hide Encode, Code, GoodStore, TableOk, Resolves, Structured, Stored, Loader.CidCache.Valid, WithCells, FreeRegion, Loaded,
      Bootstrap, NoRoom, Counted, Shows, Spells, Unfold, Ok;
    at := Placed(loader.View(), 0, 0);
    var addr := loader.LinkCid(cid, rank);
    if addr.None? {
      return NoMemory, at;
    }
    ghost var before := loader.View();
    if boot: Word :| FreeRegion(loader.space.image, boot, 2) {
      var stream := [Cells.EncodeXt(addr.value), Cells.EXIT];
      var image := loader.space.image.(code := WithCells(loader.space.image.code, boot, stream));
      BootstrapWritten(before, before.(image := image), h, p, addr.value, boot);
      at := Placed(before.(image := image), addr.value, boot);
      report := RunMachine(image, boot, stack, turns);
    } else {
      NoBootLeft(before, loader.order, loader.outOfMemory);
      report := NoMemory;
    }
  }

  /** vm_run, for so many turns. */
  method RunMachine(image: Vm.Image, boot: Word, stack: seq<Word>, turns: nat) returns (report: Report)
    ensures Shows(report, Vm.Run(image, At(boot, stack, []), turns))
  {
    var machine := new Vm.Machine(boot, stack);
    machine.Dispatch(image, turns);
    HaltedMeansEmpty(image, At(boot, stack, []), turns);
    report := match machine.status
      case Halted => Finished(machine.ds)
      case Fault => Faulted
      case Running => StillRunning;
  }

  lemma NoBootLeft(l: Link, done: seq<Cid>, out: bool)
    requires Loader.StillCounted(l, done, out) && forall base: Word :: !FreeRegion(l.image, base, 2)
    ensures NoRoom(l.store, l.image.prims)
  {
    assert done + [] == done;
    forall most: nat
      ensures !Roomy(l.store, l.image.prims, most)
    {
      if !out && Roomy(l.store, l.image.prims, most) {
        RoomLeft(l, done, most, 2);
      }
    }
  }

  /** The session with one word more: everything linked so far is still there to be linked. */
  lemma SessionGrows(h: Hash, table: map<U16, Word>, p: Prog, hist: seq<Record>)
    requires Structured(p) && Uses(table, p) && CONTROL <= table.Keys
    requires Closed(h, hist) && RegisteredAll(table, hist)
    requires Agree(h, map[], hist + RecordsStmt(h, Call(p)))
    ensures var all := hist + RecordsStmt(h, Call(p));
      var was, db, cid := PutAll(h, map[], hist), PutAll(h, map[], all), h(Encode(Code(h, p)));
      && db == PutAll(h, was, RecordsStmt(h, Call(p))) && Grown(was, db) && Closed(h, all) && RegisteredAll(table, all)
      && GoodStore(db, OrderOf(h, all))
      && Stored(db, h, p) && HasRecord(db, h, Record(KIND_WORD, Encode(Code(h, p))))
      && Resolves(db, table, OrderOf(h, all), cid)
      && forall c | c in was :: Resolves(db, table, OrderOf(h, all), c)
  {
    hide Encode, Code, PutAll, Parse, Closed, Agree, GoodStore, Resolves, Registered;
    var rs := RecordsStmt(h, Call(p));
    var all := hist + rs;
    SessionIsLinkable(h, table, p, hist);
    PutAllConcat(h, map[], hist, rs);
    var was, db := PutAll(h, map[], hist), PutAll(h, map[], all);
    forall c | c in was
      ensures c in db && db[c] == was[c] && Resolves(db, table, OrderOf(h, all), c)
    {
      PutAllKeeps(h, was, rs, c);
      SessionResolves(h, all, table, c);
    }
  }

  /** On-demand compilation: the body into fresh buffers, then into the database. */
  method CompileWord(emitter: Emitter, p: Prog) returns (cid: Cid)
    requires emitter.Valid()
    modifies emitter
    ensures emitter.Valid() && emitter.blob == old(emitter.blob)
    ensures cid == emitter.hash(Encode(Code(emitter.hash, p)))
    ensures emitter.db == PutAll(emitter.hash, old(emitter.db), RecordsStmt(emitter.hash, Call(p)))
  {
    var _, bytes := emitter.CompileQuotation(p);
    PutAllConcat(emitter.hash, old(emitter.db), Records(emitter.hash, p), [Record(KIND_WORD, bytes)]);
    cid := emitter.StoreBlob(KIND_WORD, bytes);
  }

  /** The session's database, with the new word in it, satisfies the linker. */
  lemma SessionIsLinkable(h: Hash, table: map<U16, Word>, p: Prog, hist: seq<Record>)
    requires Structured(p) && Uses(table, p) && CONTROL <= table.Keys
    requires Closed(h, hist) && RegisteredAll(table, hist)
    requires Agree(h, map[], hist + RecordsStmt(h, Call(p)))
    ensures var all := hist + RecordsStmt(h, Call(p));
      var db, cid := PutAll(h, map[], all), h(Encode(Code(h, p)));
      && GoodStore(db, OrderOf(h, all))
      && Stored(db, h, p) && HasRecord(db, h, Record(KIND_WORD, Encode(Code(h, p))))
      && Resolves(db, table, OrderOf(h, all), cid)
      && Closed(h, all) && RegisteredAll(table, all)
  {
    hide Encode, Code, PutAll, Parse, Closed, Agree, GoodStore, Resolves, Registered;
    var rs := RecordsStmt(h, Call(p));
    var all := hist + rs;
    RecordsStmtClosed(h, Call(p));
    ClosedConcat(h, hist, rs);
    StoredIffAgree(h, map[], all);
    var db := PutAll(h, map[], all);
    BothStored(h, db, hist, rs);
    StmtStoredFromRecords(h, db, Call(p));
    SessionStoreIsGood(h, all);
    StmtRegistered(h, table, Call(p));
    RegisteredBoth(table, hist, rs);
    SessionResolves(h, all, table, h(Encode(Code(h, p))));
  }

  lemma BootstrapWritten(l: Link, l': Link, h: Hash, p: Prog, addr: Word, boot: Word)
    requires Ok(l) && FreeRegion(l.image, boot, 2)
    requires l' == l.(image := l.image.(code := WithCells(l.image.code, boot, [Cells.EncodeXt(addr), Cells.EXIT])))
    requires Structured(p) && Stored(l.store, h, p)
    requires HasRecord(l.store, h, Record(KIND_WORD, Encode(Code(h, p))))
    requires h(Encode(Code(h, p))) in l.cache && l.cache[h(Encode(Code(h, p)))] == addr
    ensures Loaded(l', h, p, addr) && Bootstrap(l', boot, addr) && Extends(l, l')
  {
    hide Encode, Code, Denotes, Structured, Stored;
    var cells := [Cells.EncodeXt(addr), Cells.EXIT];
    WithCellsReads(l.image.code, boot, cells);
    assert Extends(l, l');
    OkExtends(l, l');
    assert Holds(l'.image.code, boot, 0, cells[0]) && Holds(l'.image.code, boot, 1, cells[1]);
  }

  /** The machine halts only at an EXIT that finds the return stack empty. */
  lemma {:induction false} HaltedMeansEmpty(m: Vm.Image, s: Vm.State, n: nat)
    requires s.status == Vm.Halted ==> s.rs == []
    ensures Vm.Run(m, s, n).status == Vm.Halted ==> Vm.Run(m, s, n).rs == []
    decreases n
  {
    if n > 0 {
      StepHalts(m, s);
      HaltedMeansEmpty(m, Vm.Step(m, s), n - 1);
    }
  }

  lemma StepHalts(m: Vm.Image, s: Vm.State)
    requires s.status == Vm.Halted ==> s.rs == []
    ensures Vm.Step(m, s).status == Vm.Halted ==> Vm.Step(m, s).rs == []
  {
    if s.status == Vm.Running && s.ip in m.code {
      var next := s.(ip := Vm.Cell(s.ip, 1));
      PushRawNeverHalts(m, next, Cells.DecodeLnt(m.code[s.ip]));
      ExecuteHalts(m, next, Cells.DecodeXt(m.code[s.ip]));
    }
  }

  lemma {:induction false} ExecuteHalts(m: Vm.Image, s: Vm.State, addr: Word)
    requires s.status == Vm.Running
    ensures Vm.Execute(m, s, addr).status == Vm.Halted ==> Vm.Execute(m, s, addr).rs == []
    decreases |s.ds|
  {
    if s.ds != [] {
      ExecuteHalts(m, s.(ds := s.ds[1..]), s.ds[0]);
    }
  }

  lemma {:induction false} PushRawNeverHalts(m: Vm.Image, s: Vm.State, n: nat)
    requires s.status == Vm.Running
    ensures Vm.PushRaw(m, s, n).status != Vm.Halted
    decreases n
  {
    if n > 0 && s.ip in m.code {
      PushRawNeverHalts(m, s.(ip := Vm.Cell(s.ip, 1), ds := [m.code[s.ip]] + s.ds), n - 1);
    }
  }
}
