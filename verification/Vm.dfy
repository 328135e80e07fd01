/** The threaded inner interpreter (kernel/x86-64/vm.asm, branch.asm, 0branch.asm,
    docol.asm, execute.asm) over 64-bit cells in a byte-addressed code memory. */
module Vm {
  import opened Words
  import opened Blob
  import Cells
  import P = Primitives

  /** What the machine finds in memory: cells of linked code, the machine code of the
      primitives, and DOCOL wrappers with the cell stream each one loads. */
  datatype Image = Image(code: map<Word, Word>, prims: map<Word, U16>, words: map<Word, Word>)

  /** Fault: the run has left what this model describes. */
  datatype Status = Running | Halted | Fault

  datatype State = Regs(ip: Word, ds: seq<Word>, rs: seq<Word>, status: Status)

  /** The address of cell i of a stream, wrapping as address arithmetic does. */
  function Cell(base: Word, i: int): Word {
    ToWord(base + 8 * i)
  }

  function BranchTarget(ip: Word, offset: Word): Word {
    Cell(Cell(ip, 1), Cells.DecodeLit(offset))
  }

  function Jump(m: Image, s: State): State {
    if s.ip in m.code then s.(ip := BranchTarget(s.ip, m.code[s.ip])) else s.(status := Fault)
  }

  function ZeroBranch(m: Image, s: State): State {
    if |s.ds| == 0 then s.(status := Fault)
    else if s.ds[0] != 0 then s.(ip := Cell(s.ip, 1), ds := s.ds[1..])
    else Jump(m, s.(ds := s.ds[1..]))
  }

  /** Entering a wrapper: DOCOL saves the instruction pointer and starts the stream. */
  function Docol(m: Image, s: State, addr: Word): State
    requires addr in m.words
  {
    s.(rs := [s.ip] + s.rs, ip := m.words[addr])
  }

  function RunPrimitive(m: Image, s: State, id: U16): State
    decreases |s.ds|, 0
  {
    if id == P.BRANCH then Jump(m, s)
    else if id == P.ZBRANCH then ZeroBranch(m, s)
    else if id == P.EXECUTE then
      if |s.ds| == 0 then s.(status := Fault)
      else if s.ds[0] == 0 then s.(ds := s.ds[1..])
      else Execute(m, s.(ds := s.ds[1..]), s.ds[0])
    else
      match P.Effects(id, s.ds, s.rs)
      case Ok(ds, rs) => s.(ds := ds, rs := rs)
      case _ => s.(status := Fault)
  }

  function Execute(m: Image, s: State, addr: Word): State
    decreases |s.ds|, 1
  {
    if addr == 0 then
      if s.rs == [] then s.(status := Halted) else s.(ip := s.rs[0], rs := s.rs[1..])
    else if addr in m.prims then RunPrimitive(m, s, m.prims[addr])
    else if addr in m.words then Docol(m, s, addr)
    else s.(status := Fault)
  }

  /** The LNT loop: n raw cells go to the data stack without being decoded. */
  function PushRaw(m: Image, s: State, n: nat): State
    decreases n
  {
    if n == 0 then s
    else if s.ip !in m.code then s.(status := Fault)
    else PushRaw(m, s.(ip := Cell(s.ip, 1), ds := [m.code[s.ip]] + s.ds), n - 1)
  }

  /** One turn of the dispatch loop. */
  function Step(m: Image, s: State): State {
    if s.status != Running then s
    else if s.ip !in m.code then s.(status := Fault)
    else
      var cell := m.code[s.ip];
      var next := s.(ip := Cell(s.ip, 1));
      if cell % 4 == 0 then Execute(m, next, Cells.DecodeXt(cell))
      else if cell % 4 == 1 then next.(ds := [ToWord(Cells.DecodeLit(cell))] + next.ds)
      else if cell % 4 == 2 then
        if (cell / 4) % 2 == 0 then next.(ds := [cell / 4] + next.ds)
        else PushRaw(m, next, Cells.DecodeLnt(cell))
      else next
  }

  /** One turn by the low bits of the cell: 01 pushes the other 62 bits as a signed number, 010
      the cell over 4, 110 as many raw cells as it says; 11 is passed over; 00 is an address,
      and address 0 returns to the caller or halts. */
  lemma StepLaw(m: Image, ip: Word, ds: seq<Word>, rs: seq<Word>)
    requires ip in m.code && ip < 0xFFFF_FFFF_FFFF_FFF8
    ensures var c, t := m.code[ip], Step(m, Regs(ip, ds, rs, Running));
      && (c % 4 == 1 && c < 0x8000_0000_0000_0000 ==> t == Regs(ip + 8, [c / 4] + ds, rs, Running))
      && (c % 4 == 1 && c >= 0x8000_0000_0000_0000 ==> t == Regs(ip + 8, [c / 4 + 0xC000_0000_0000_0000] + ds, rs, Running))
      && (c % 8 == 2 ==> t == Regs(ip + 8, [c / 4] + ds, rs, Running))
      && (c % 8 == 6 ==> t == PushRaw(m, Regs(ip + 8, ds, rs, Running), c / 8))
      && (c % 4 == 3 ==> t == Regs(ip + 8, ds, rs, Running))
      && (c % 4 == 0 && c != 0 ==> t == Execute(m, Regs(ip + 8, ds, rs, Running), c))
      && (c == 0 ==> t == if rs == [] then Regs(ip + 8, ds, rs, Halted) else Regs(rs[0], ds, rs[1..], Running))
  {
    hide Execute, PushRaw, Cells.DecodeLit, ToWord;
    if m.code[ip] % 4 == 1 {
      LiteralCell(m.code[ip]);
    }
    assert Cell(ip, 1) == ip + 8 by {
      NextAddress(ip);
    }
    if m.code[ip] == 0 {
      ExitLaw(m, ip + 8, ds, rs);
    }
  }

  lemma NextAddress(ip: Word)
    requires ip < 0xFFFF_FFFF_FFFF_FFF8
    ensures Cell(ip, 1) == ip + 8
  {
  }

  lemma LiteralCell(c: Word)
    requires c % 4 == 1
    ensures ToWord(Cells.DecodeLit(c)) == if c < 0x8000_0000_0000_0000 then c / 4 else c / 4 + 0xC000_0000_0000_0000
  {
    var bits: int := c;
    if bits >= 0x8000_0000_0000_0000 {
      DivUnique(bits - 0x1_0000_0000_0000_0000, 4, bits / 4 - 0x4000_0000_0000_0000, 1);
      DivUnique(bits / 4 - 0x4000_0000_0000_0000, 0x1_0000_0000_0000_0000, -1, bits / 4 + 0xC000_0000_0000_0000);
    }
  }

  lemma ExitLaw(m: Image, ip: Word, ds: seq<Word>, rs: seq<Word>)
    ensures Execute(m, Regs(ip, ds, rs, Running), 0) == if rs == [] then Regs(ip, ds, rs, Halted) else Regs(rs[0], ds, rs[1..], Running)
  {
  }

  /** Raw cells end up on the data stack as they lie in memory, the last one on top. */
  lemma {:induction false} RawLaw(m: Image, ip: Word, ds: seq<Word>, rs: seq<Word>, n: nat)
    requires ip + 8 * n < 0x1_0000_0000_0000_0000 && forall i | 0 <= i < n :: ip + 8 * i in m.code
    ensures var t := PushRaw(m, Regs(ip, ds, rs, Running), n);
      && t.ip == ip + 8 * n && t.rs == rs && t.status == Running
      && |t.ds| == n + |ds| && t.ds[n..] == ds && forall i | 0 <= i < n :: t.ds[i] == m.code[ip + 8 * (n - 1 - i)]
    decreases n
  {
    if n > 0 {
      assert ip + 8 * 0 in m.code;
      forall i | 0 <= i < n - 1
        ensures ip + 8 + 8 * i in m.code
      {
        assert ip + 8 * (i + 1) in m.code;
      }
      RawLaw(m, ip + 8, [m.code[ip]] + ds, rs, n - 1);
    }
  }

  /** Primitives 40 and 41: the cell behind them holds an offset in cells from the cell after
      that; 41 takes a flag and goes by it when the flag is 0. */
  lemma BranchLaw(m: Image, ip: Word, offset: Int64, flag: Word, ds: seq<Word>, rs: seq<Word>)
    requires ip in m.code && m.code[ip] == Cells.EncodeLit(offset) && Fits62(offset)
    requires 0 <= ip + 8 + 8 * offset < 0x1_0000_0000_0000_0000 && ip < 0xFFFF_FFFF_FFFF_FFF8
    ensures RunPrimitive(m, Regs(ip, ds, rs, Running), 40) == Regs(ip + 8 + 8 * offset, ds, rs, Running)
    ensures RunPrimitive(m, Regs(ip, [flag] + ds, rs, Running), 41) == Regs(if flag == 0 then ip + 8 + 8 * offset else ip + 8, ds, rs, Running)
    ensures RunPrimitive(m, Regs(ip, [], rs, Running), 41) == Regs(ip, [], rs, Fault)
  {
    hide Cells.EncodeLit, Cells.DecodeLit;
    Cells.LitExactIff62(offset);
    assert ([flag] + ds)[1..] == ds;
    NextAddress(ip);
  }

  /** Primitive 42: 0 is dropped; any other address does what a cell that holds it would do:
      a word is called and the caller goes on behind it, a primitive runs, and anything else
      is a fault. */
  lemma ExecuteLaw(m: Image, ip: Word, addr: Word, ds: seq<Word>, rs: seq<Word>)
    ensures RunPrimitive(m, Regs(ip, [], rs, Running), 42) == Regs(ip, [], rs, Fault)
    ensures RunPrimitive(m, Regs(ip, [0] + ds, rs, Running), 42) == Regs(ip, ds, rs, Running)
    ensures addr != 0 ==> var t := RunPrimitive(m, Regs(ip, [addr] + ds, rs, Running), 42);
      && t == Execute(m, Regs(ip, ds, rs, Running), addr)
      && (addr in m.prims ==> t == RunPrimitive(m, Regs(ip, ds, rs, Running), m.prims[addr]))
      && (addr !in m.prims && addr in m.words ==> t == Regs(m.words[addr], ds, [ip] + rs, Running))
      && (addr !in m.prims && addr !in m.words ==> t == Regs(ip, ds, rs, Fault))
  {
    assert ([addr] + ds)[1..] == ds && ([0] + ds)[1..] == ds;
  }

  function Run(m: Image, s: State, n: nat): State
    decreases n
  {
    if n == 0 then s else Run(m, Step(m, s), n - 1)
  }

  lemma {:induction false} RunAdd(m: Image, s: State, j: nat, k: nat)
    ensures Run(m, Run(m, s, j), k) == Run(m, s, j + k)
    decreases j
  {
    if j > 0 {
      RunAdd(m, Step(m, s), j - 1, k);
    }
  }

  /** Once stopped, the machine stays as it is, so a run has one final state. */
  lemma {:induction false} StoppedStays(m: Image, s: State, n: nat)
    requires s.status != Running
    ensures Run(m, s, n) == s
  {
    if n > 0 {
      StoppedStays(m, s, n - 1);
    }
  }

  /** The registers of the machine. The running flag and the way it stopped are one field. */
  class Machine {
    var ip: Word
    var ds: seq<Word>
    var rs: seq<Word>
    var status: Status

    ghost function Snapshot(): State
      reads this
    {
      Regs(ip, ds, rs, status)
    }

    /** vm_run's entry: both stacks as they were left, IP at the given stream. */
    constructor (code: Word, stack: seq<Word>)
      ensures Snapshot() == Regs(code, stack, [], Running)
    {
      ip, ds, rs, status := code, stack, [], Running;
    }

    method OpBranch(m: Image)
      modifies this
      ensures Snapshot() == Jump(m, old(Snapshot()))
    {
      if ip !in m.code {
        status := Fault;
        return;
      }
      var offset := m.code[ip];
      ip := Cell(ip, 1);
      ip := Cell(ip, Cells.DecodeLit(offset));
    }

    method OpZeroBranch(m: Image)
      modifies this
      ensures Snapshot() == ZeroBranch(m, old(Snapshot()))
    {
      if |ds| == 0 {
        status := Fault;
        return;
      }
      var flag := ds[0];
      ds := ds[1..];
      if flag != 0 {
        ip := Cell(ip, 1);
      } else {
        OpBranch(m);
      }
    }

    method EnterDocol(m: Image, addr: Word)
      requires addr in m.words
      modifies this
      ensures Snapshot() == Docol(m, old(Snapshot()), addr)
    {
      rs := [ip] + rs;
      ip := m.words[addr];
    }

    method OpExecute(m: Image)
      modifies this
      ensures Snapshot() == RunPrimitive(m, old(Snapshot()), P.EXECUTE)
      decreases |ds|, 0
    {
      if |ds| == 0 {
        status := Fault;
        return;
      }
      var addr := ds[0];
      ds := ds[1..];
      if addr != 0 {
        DoXt(m, addr);
      }
    }

    method DoXt(m: Image, addr: Word)
      modifies this
      ensures Snapshot() == Execute(m, old(Snapshot()), addr)
      decreases |ds|, 1
    {
      if addr == 0 {
        if rs == [] {
          status := Halted;
        } else {
          ip, rs := rs[0], rs[1..];
        }
      } else if addr in m.prims {
        var id := m.prims[addr];
        if id == P.BRANCH {
          OpBranch(m);
        } else if id == P.ZBRANCH {
          OpZeroBranch(m);
        } else if id == P.EXECUTE {
          OpExecute(m);
        } else {
          match P.Effects(id, ds, rs)
          case Ok(ds', rs') => ds, rs := ds', rs';
          case _ => status := Fault;
        }
      } else if addr in m.words {
        EnterDocol(m, addr);
      } else {
        status := Fault;
      }
    }

    method DoLnt(m: Image, count: nat)
      modifies this
      ensures Snapshot() == PushRaw(m, old(Snapshot()), count)
    {
      var left := count;
      while left > 0
        invariant PushRaw(m, Snapshot(), left) == PushRaw(m, old(Snapshot()), count)
      {
        if ip !in m.code {
          status := Fault;
          return;
        }
        ds := [m.code[ip]] + ds;
        ip := Cell(ip, 1);
        left := left - 1;
      }
    }

    /** The dispatch loop, for at most the given number of turns. */
    method Dispatch(m: Image, turns: nat)
      modifies this
      ensures Snapshot() == Run(m, old(Snapshot()), turns)
    {
      var left := turns;
      while left > 0 && status == Running
        invariant 0 <= left <= turns
        invariant Run(m, Snapshot(), left) == Run(m, old(Snapshot()), turns)
      {
        DispatchOne(m);
        left := left - 1;
      }
      if left > 0 {
        StoppedStays(m, Snapshot(), left);
      }
    }

    method DispatchOne(m: Image)
      requires status == Running
      modifies this
      ensures Snapshot() == Step(m, old(Snapshot()))
    {
      if ip !in m.code {
        status := Fault;
        return;
      }
      var cell := m.code[ip];
      ip := Cell(ip, 1);
      match cell % 4
      case 0 => DoXt(m, Cells.DecodeXt(cell));
      case 1 => ds := [ToWord(Cells.DecodeLit(cell))] + ds;
      case 2 =>
        if (cell / 4) % 2 == 0 {
          ds := [cell / 4] + ds;
        } else {
          DoLnt(m, Cells.DecodeLnt(cell));
        }
      case _ =>
    }
  }
}
