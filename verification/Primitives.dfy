/** The assembly primitives (kernel/x86-64/ one file each), on a data stack and a
    return stack of 64-bit words whose tops come first. */
module Primitives {
  import opened Words
  import opened Blob

  const ADD: U16 := 1
  const SUB: U16 := 2
  const MUL: U16 := 3
  const DIV: U16 := 4
  const MOD: U16 := 5
  const DUP: U16 := 6
  const DROP: U16 := 7
  const OVER: U16 := 9
  const EQ: U16 := 11
  const NE: U16 := 12
  const LT: U16 := 13
  const GT: U16 := 14
  const LE: U16 := 15
  const GE: U16 := 16
  const AND: U16 := 17
  const OR: U16 := 18
  const XOR: U16 := 19
  const NOT: U16 := 20
  const LSHIFT: U16 := 21
  const RSHIFT: U16 := 22
  const ARSHIFT: U16 := 23
  const LAND: U16 := 24
  const LOR: U16 := 25
  const LNOT: U16 := 26
  const ZEROP: U16 := 27
  const ZEROGT: U16 := 28
  const ZEROLT: U16 := 29
  const TOR: U16 := 34
  const FROMR: U16 := 35
  const RFETCH: U16 := 36
  const RDROP: U16 := 37
  const BRANCH: U16 := 40
  const ZBRANCH: U16 := 41
  const EXECUTE: U16 := 42
  const I0: U16 := 43
  const IDENTITY: U16 := 46

  /** Trap: data-stack underflow, a division the processor refuses, or a primitive
      outside this model. Escape: a return-stack read below what the caller of
      this function says is there. */
  datatype Effect = Ok(ds: seq<Word>, rs: seq<Word>) | Trap | Escape

  datatype Value = Val(w: Word) | NoValue

  function Flag(b: bool): Word {
    if b then TWO_64 - 1 else 0
  }

  /** idiv rounds toward zero. */
  function Quotient(a: int, b: int): int
    requires b != 0
  {
    var q := Abs(a) / Abs(b);
    if (a < 0) == (b < 0) then q else -q
  }

  function Abs(a: int): nat {
    if a < 0 then -a else a
  }

  /** idiv raises a fault on a zero divisor and on an overflowing quotient. */
  predicate Divides(a: Int64, b: Int64) {
    b != 0 && !(a == -TWO_63 && b == -1)
  }

  function Bitwise(id: U16, a: nat, b: nat, bits: nat): (r: nat) {
    if bits == 0 then 0 else
    var x, y := a % 2 == 1, b % 2 == 1;
    var z := if id == AND then x && y else if id == OR then x || y else x != y;
    (if z then 1 else 0) + 2 * Bitwise(id, a / 2, b / 2, bits - 1)
  }

  /** Operators that take two words off the data stack, a below b. */
  function Binary(id: U16, a: Word, b: Word): Value {
    var x, y := Signed(a), Signed(b);
    if id == ADD then Val(ToWord(a + b))
    else if id == SUB then Val(ToWord(a - b))
    else if id == MUL then Val(ToWord(a * b))
    else if id == DIV then (if Divides(x, y) then Val(ToWord(Quotient(x, y))) else NoValue)
    else if id == MOD then (if Divides(x, y) then Val(ToWord(x - y * Quotient(x, y))) else NoValue)
    else if id == EQ then Val(Flag(a == b))
    else if id == NE then Val(Flag(a != b))
    else if id == LT then Val(Flag(x < y))
    else if id == GT then Val(Flag(x > y))
    else if id == LE then Val(Flag(x <= y))
    else if id == GE then Val(Flag(x >= y))
    else if id == AND || id == OR || id == XOR then Val(ToWord(Bitwise(id, a, b, 64)))
    else if id == LSHIFT then Val(ToWord(a * Pow2(b % 64)))
    else if id == RSHIFT then Val(ToWord(a / Pow2(b % 64)))
    else if id == ARSHIFT then Val(ToWord(x / Pow2(b % 64)))
    else if id == LAND then Val(Flag(a != 0 && b != 0))
    else if id == LOR then Val(Flag(a != 0 || b != 0))
    else NoValue
  }

  function Unary(id: U16, a: Word): Value {
    if id == NOT then Val(TWO_64 - 1 - a)
    else if id == LNOT || id == ZEROP then Val(Flag(a == 0))
    else if id == ZEROGT then Val(Flag(Signed(a) > 0))
    else if id == ZEROLT then Val(Flag(Signed(a) < 0))
    else NoValue
  }

  predicate IsUnary(id: U16) {
    id == NOT || LNOT <= id <= ZEROLT
  }

  /** What a primitive other than the branches does to the two stacks. */
  function Effects(id: U16, ds: seq<Word>, rs: seq<Word>): Effect {
    if id == IDENTITY then Ok(ds, rs)
    else if id == DUP then (if |ds| < 1 then Trap else Ok([ds[0]] + ds, rs))
    else if id == DROP then (if |ds| < 1 then Trap else Ok(ds[1..], rs))
    else if id == OVER then (if |ds| < 2 then Trap else Ok([ds[1]] + ds, rs))
    else if id == TOR then (if |ds| < 1 then Trap else Ok(ds[1..], [ds[0]] + rs))
    else if id == FROMR then (if |rs| < 1 then Escape else Ok([rs[0]] + ds, rs[1..]))
    else if id == RFETCH || id == I0 then (if |rs| < 1 then Escape else Ok([rs[0]] + ds, rs))
    else if id == RDROP then (if |rs| < 1 then Escape else Ok(ds, rs[1..]))
    else if IsUnary(id) then
      if |ds| < 1 then Trap else
      match Unary(id, ds[0])
      case Val(w) => Ok([w] + ds[1..], rs)
      case NoValue => Trap
    else
      if |ds| < 2 then Trap else
      match Binary(id, ds[1], ds[0])
      case Val(w) => Ok([w] + ds[2..], rs)
      case NoValue => Trap
  }

  /** A primitive that stays inside its own part of the return stack does not
      notice what lies below it. */
  lemma EffectsFrame(id: U16, ds: seq<Word>, rs: seq<Word>, below: seq<Word>)
    ensures Effects(id, ds, rs).Trap? ==> Effects(id, ds, rs + below).Trap?
    ensures Effects(id, ds, rs).Ok? ==>
      Effects(id, ds, rs + below) == Ok(Effects(id, ds, rs).ds, Effects(id, ds, rs).rs + below)
  {
    if |ds| >= 1 {
      assert [ds[0]] + rs + below == [ds[0]] + (rs + below);
    }
    if |rs| >= 1 {
      assert (rs + below)[1..] == rs[1..] + below;
    }
  }
}
