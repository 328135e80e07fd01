/** What each primitive does to the stacks (kernel/x86-64, one file each), by its number
    (src/types.h:35-81), in integers, bits and stack positions. */
module PrimitiveLaws {
  import opened Words
  import opened Blob
  import opened Bitmap
  import opened Primitives

  const TRUE: Word := 0xFFFF_FFFF_FFFF_FFFF

  /** a b -- w, whatever lies below. */
  ghost predicate Gives(id: U16, a: Word, b: Word, w: Word) {
    forall ds: seq<Word>, rs: seq<Word> :: Effects(id, [b, a] + ds, rs) == Ok([w] + ds, rs)
  }

  /** a -- w, whatever lies below. */
  ghost predicate Turns(id: U16, a: Word, w: Word) {
    forall ds: seq<Word>, rs: seq<Word> :: Effects(id, [a] + ds, rs) == Ok([w] + ds, rs)
  }

  ghost predicate Refuses(id: U16, a: Word, b: Word) {
    forall ds: seq<Word>, rs: seq<Word> :: Effects(id, [b, a] + ds, rs) == Trap
  }

  /** A flag is all ones or all zeros. */
  predicate IsFlag(w: Word, b: bool) {
    w == if b then 0xFFFF_FFFF_FFFF_FFFF else 0
  }

  predicate IsBinary(id: U16) {
    1 <= id <= 5 || 11 <= id <= 19 || 21 <= id <= 25
  }

  lemma BinaryGives(id: U16, a: Word, b: Word)
    requires IsBinary(id)
    ensures Binary(id, a, b).Val? ==> Gives(id, a, b, Binary(id, a, b).w)
    ensures Binary(id, a, b).NoValue? ==> Refuses(id, a, b)
  {
    hide Binary;
    forall ds: seq<Word>, rs: seq<Word>
      ensures Effects(id, [b, a] + ds, rs) == match Binary(id, a, b) case Val(w) => Ok([w] + ds, rs) case NoValue => Trap
    {
      assert ([b, a] + ds)[2..] == ds;
    }
  }

  lemma UnaryTurns(id: U16, a: Word)
    requires id == 20 || 26 <= id <= 29
    ensures Unary(id, a).Val? && Turns(id, a, Unary(id, a).w)
  {
    forall ds: seq<Word>, rs: seq<Word>
      ensures Effects(id, [a] + ds, rs) == Ok([Unary(id, a).w] + ds, rs)
    {
      assert ([a] + ds)[1..] == ds;
    }
  }

  // ----- Arithmetic -----

  /** A word's signed reading differs from it by a multiple of 2^64. */
  lemma SignedLaw(w: Word)
    ensures (Signed(w) - w) % 0x1_0000_0000_0000_0000 == 0
    ensures -0x8000_0000_0000_0000 <= Signed(w) < 0x8000_0000_0000_0000
  {
  }

  /** +, - and * are exact modulo 2^64. */
  lemma ArithmeticLaw(a: Word, b: Word) returns (sum: Word, difference: Word, product: Word)
    ensures Gives(1, a, b, sum) && (sum - (a + b)) % 0x1_0000_0000_0000_0000 == 0
    ensures Gives(2, a, b, difference) && (difference - (a - b)) % 0x1_0000_0000_0000_0000 == 0
    ensures Gives(3, a, b, product) && (product - a * b) % 0x1_0000_0000_0000_0000 == 0
  {
    hide Gives;
    BinaryGives(1, a, b);
    BinaryGives(2, a, b);
    BinaryGives(3, a, b);
    sum, difference, product := Binary(1, a, b).w, Binary(2, a, b).w, Binary(3, a, b).w;
    ModuloLaw(a + b);
    ModuloLaw(a - b);
    ModuloLaw(a * b);
  }

  lemma ModuloLaw(v: int)
    ensures (ToWord(v) - v) % 0x1_0000_0000_0000_0000 == 0
  {
    var q := v / 0x1_0000_0000_0000_0000;
    DivUnique(ToWord(v) - v, 0x1_0000_0000_0000_0000, -q, 0);
  }

  /** Where the processor refuses to divide. */
  predicate Undivided(x: Int64, y: Int64) {
    y == 0 || (x == -0x8000_0000_0000_0000 && y == -1)
  }

  /** / and % trap together, and otherwise split the dividend with a remainder of its own
      sign that is smaller than the divisor. */
  lemma DivisionLaw(a: Word, b: Word) returns (q: Word, r: Word)
    ensures Undivided(Signed(a), Signed(b)) ==> Refuses(4, a, b) && Refuses(5, a, b)
    ensures !Undivided(Signed(a), Signed(b)) ==>
      && Gives(4, a, b, q) && Gives(5, a, b, r)
      && Signed(a) == Signed(b) * Signed(q) + Signed(r)
      && -Magnitude(Signed(b)) < Signed(r) < Magnitude(Signed(b))
      && (Signed(r) != 0 ==> (Signed(r) < 0 <==> Signed(a) < 0))
  {
    hide Gives, Refuses;
    BinaryGives(4, a, b);
    BinaryGives(5, a, b);
    var x, y := Signed(a), Signed(b);
    if Undivided(x, y) {
      q, r := 0, 0;
    } else {
      q, r := Binary(4, a, b).w, Binary(5, a, b).w;
      QuotientLaw(x, y);
      SignedToWord(Quotient(x, y));
      SignedToWord(x - y * Quotient(x, y));
    }
  }

  function Magnitude(v: int): (m: int)
    ensures m >= 0
  {
    if v < 0 then -v else v
  }

  lemma QuotientLaw(x: Int64, y: Int64)
    requires !Undivided(x, y)
    ensures -0x8000_0000_0000_0000 <= Quotient(x, y) < 0x8000_0000_0000_0000
    ensures -0x8000_0000_0000_0000 <= x - y * Quotient(x, y) < 0x8000_0000_0000_0000
    ensures -Magnitude(y) < x - y * Quotient(x, y) < Magnitude(y)
    ensures x - y * Quotient(x, y) != 0 ==> (x - y * Quotient(x, y) < 0 <==> x < 0)
  {
    var m, n := Magnitude(x), Magnitude(y);
    var q := m / n;
    QuotientSmall(m, n);
    ProductLaw(x, y, q);
    assert Quotient(x, y) == if (x < 0) == (y < 0) then q else -q;
  }

  /** The product of the divisor and the quotient has the dividend's sign. */
  lemma ProductLaw(x: int, y: int, q: int)
    requires y != 0
    ensures y * (if (x < 0) == (y < 0) then q else -q) == if x < 0 then -(Magnitude(y) * q) else Magnitude(y) * q
  {
    if y < 0 {
      assert y * q == -(Magnitude(y) * q);
      assert y * -q == Magnitude(y) * q;
    } else {
      assert y * -q == -(Magnitude(y) * q);
    }
  }

  lemma QuotientSmall(m: int, n: int)
    requires m >= 0 && n > 0
    ensures 0 <= m / n <= m && (n > 1 && m > 0 ==> m / n < m) && (n == 1 ==> m / n == m)
    ensures 0 <= m - n * (m / n) < n
  {
    var q := m / n;
    assert m == n * q + m % n;
    if q > 0 {
      MulMonotone(q, 1, n);
      if n > 1 {
        MulMonotone(q, 2, n);
      }
    }
  }

  // ----- Comparisons and logic -----

  /** =, !=, <, >, <= and >= are flags; order is that of the signed readings. */
  lemma ComparisonLaw(a: Word, b: Word) returns (eq: Word, ne: Word, lt: Word, gt: Word, le: Word, ge: Word)
    ensures Gives(11, a, b, eq) && IsFlag(eq, a == b)
    ensures Gives(12, a, b, ne) && IsFlag(ne, a != b)
    ensures Gives(13, a, b, lt) && IsFlag(lt, Signed(a) < Signed(b))
    ensures Gives(14, a, b, gt) && IsFlag(gt, Signed(a) > Signed(b))
    ensures Gives(15, a, b, le) && IsFlag(le, Signed(a) <= Signed(b))
    ensures Gives(16, a, b, ge) && IsFlag(ge, Signed(a) >= Signed(b))
    ensures ne == 0xFFFF_FFFF_FFFF_FFFF - eq && ge == 0xFFFF_FFFF_FFFF_FFFF - lt && le == 0xFFFF_FFFF_FFFF_FFFF - gt
  {
    hide Gives;
    BinaryGives(11, a, b);
    BinaryGives(12, a, b);
    BinaryGives(13, a, b);
    BinaryGives(14, a, b);
    BinaryGives(15, a, b);
    BinaryGives(16, a, b);
    eq, ne, lt := Binary(11, a, b).w, Binary(12, a, b).w, Binary(13, a, b).w;
    gt, le, ge := Binary(14, a, b).w, Binary(15, a, b).w, Binary(16, a, b).w;
  }

  /** and, or, not, 0?, 0> and 0< are flags. */
  lemma LogicLaw(a: Word, b: Word) returns (both: Word, either: Word, none: Word, zero: Word, pos: Word, neg: Word)
    ensures Gives(24, a, b, both) && IsFlag(both, a != 0 && b != 0)
    ensures Gives(25, a, b, either) && IsFlag(either, a != 0 || b != 0)
    ensures Turns(26, a, none) && IsFlag(none, a == 0)
    ensures Turns(27, a, zero) && IsFlag(zero, a == 0)
    ensures Turns(28, a, pos) && IsFlag(pos, 0 < a < 0x8000_0000_0000_0000)
    ensures Turns(29, a, neg) && IsFlag(neg, a >= 0x8000_0000_0000_0000)
  {
    hide Gives, Turns;
    BinaryGives(24, a, b);
    BinaryGives(25, a, b);
    UnaryTurns(26, a);
    UnaryTurns(27, a);
    UnaryTurns(28, a);
    UnaryTurns(29, a);
    both, either := Binary(24, a, b).w, Binary(25, a, b).w;
    none, zero, pos, neg := Unary(26, a).w, Unary(27, a).w, Unary(28, a).w, Unary(29, a).w;
  }

  // ----- Bits -----

  lemma BitValues(id: U16, a: Word, b: Word)
    requires 17 <= id <= 19
    ensures Bitwise(id, a, b, 64) < 0x1_0000_0000_0000_0000
    ensures Binary(id, a, b).Val? && Binary(id, a, b).w == Bitwise(id, a, b, 64) && Gives(id, a, b, Binary(id, a, b).w)
  {
    hide Gives, Pow2, Signed, Quotient, Divides, Bitwise, Has;
    BinaryGives(id, a, b);
    Pow2At64();
    BitwiseBits(id, a, b, 64, 0);
    SmallWord(Bitwise(id, a, b, 64));
  }

  lemma {:induction false} BitwiseBits(id: U16, a: nat, b: nat, bits: nat, i: nat)
    ensures Has(Bitwise(id, a, b, bits), i) <==>
      i < bits && if id == AND then Has(a, i) && Has(b, i) else if id == OR then Has(a, i) || Has(b, i) else Has(a, i) != Has(b, i)
    ensures Bitwise(id, a, b, bits) < Pow2(bits)
    decreases bits
  {
    if bits == 0 {
      NoBits(i);
    } else {
      var rest := Bitwise(id, a / 2, b / 2, bits - 1);
      BitwiseBits(id, a / 2, b / 2, bits - 1, if i > 0 then i - 1 else 0);
      var r := Bitwise(id, a, b, bits);
      assert r / 2 == rest;
    }
  }

  /** &, | and ^ work bit by bit. */
  lemma BitLaw(a: Word, b: Word) returns (both: Word, either: Word, one: Word)
    ensures Gives(17, a, b, both) && forall i: nat | i < 64 :: Has(both, i) <==> Has(a, i) && Has(b, i)
    ensures Gives(18, a, b, either) && forall i: nat | i < 64 :: Has(either, i) <==> Has(a, i) || Has(b, i)
    ensures Gives(19, a, b, one) && forall i: nat | i < 64 :: Has(one, i) <==> Has(a, i) != Has(b, i)
  {
    hide Gives, Bitwise, Has, Binary, ToWord, Pow2;
    BitValues(17, a, b);
    BitValues(18, a, b);
    BitValues(19, a, b);
    both, either, one := Binary(17, a, b).w, Binary(18, a, b).w, Binary(19, a, b).w;
    Pow2At64();
    forall i: nat | i < 64
      ensures Has(both, i) <==> Has(a, i) && Has(b, i)
      ensures Has(either, i) <==> Has(a, i) || Has(b, i)
      ensures Has(one, i) <==> Has(a, i) != Has(b, i)
    {
      BitwiseBits(17, a, b, 64, i);
      BitwiseBits(18, a, b, 64, i);
      BitwiseBits(19, a, b, 64, i);
    }
  }

  lemma Pow2At64()
    ensures Pow2(64) == 0x1_0000_0000_0000_0000
  {
    assert Pow2(0) == 1;
    hide Pow2;
    Pow2Eight(0);
    Pow2Eight(8);
    Pow2Eight(16);
    Pow2Eight(24);
    Pow2Eight(32);
    Pow2Eight(40);
    Pow2Eight(48);
    Pow2Eight(56);
  }

  lemma Pow2Eight(m: nat)
    ensures Pow2(m + 8) == 256 * Pow2(m)
  {
    assert Pow2(m + 2) == 4 * Pow2(m);
    assert Pow2(m + 4) == 4 * Pow2(m + 2) by { assert Pow2(m + 3) == 2 * Pow2(m + 2); }
    assert Pow2(m + 6) == 4 * Pow2(m + 4) by { assert Pow2(m + 5) == 2 * Pow2(m + 4); }
    assert Pow2(m + 8) == 4 * Pow2(m + 6) by { assert Pow2(m + 7) == 2 * Pow2(m + 6); }
  }

  /** ~ turns every bit over. */
  lemma NotLaw(a: Word) returns (w: Word)
    ensures Turns(20, a, w) && forall i: nat | i < 64 :: Has(w, i) <==> !Has(a, i)
  {
    hide Turns, Has;
    UnaryTurns(20, a);
    w := Unary(20, a).w;
    Pow2At64();
    forall i: nat | i < 64
      ensures Has(w, i) <==> !Has(a, i)
    {
      NotBits(a, 64, i);
    }
  }

  lemma {:induction false} NotBits(a: nat, bits: nat, i: nat)
    requires a < Pow2(bits) && i < bits
    ensures Has(Pow2(bits) - 1 - a, i) <==> !Has(a, i)
    decreases bits
  {
    var w := Pow2(bits) - 1 - a;
    assert w / 2 == Pow2(bits - 1) - 1 - a / 2 && w % 2 == 1 - a % 2;
    if i > 0 {
      NotBits(a / 2, bits - 1, i - 1);
    }
  }

  /** << multiplies by a power of two modulo 2^64; >> and >>> divide by it, rounding down,
      the one the unsigned and the other the signed reading. The count is taken modulo 64. */
  lemma ShiftLaw(a: Word, b: Word) returns (left: Word, right: Word, signed: Word)
    ensures Gives(21, a, b, left) && (left - a * Pow2(b % 64)) % 0x1_0000_0000_0000_0000 == 0
    ensures Gives(22, a, b, right) && right * Pow2(b % 64) <= a < right * Pow2(b % 64) + Pow2(b % 64)
    ensures Gives(23, a, b, signed)
    ensures Signed(signed) * Pow2(b % 64) <= Signed(a) < Signed(signed) * Pow2(b % 64) + Pow2(b % 64)
  {
    hide Gives, Pow2, Binary, ToWord, Signed;
    var p := Pow2(b % 64);
    ShiftValues(a, b);
    BinaryGives(21, a, b);
    BinaryGives(22, a, b);
    BinaryGives(23, a, b);
    left, right, signed := Binary(21, a, b).w, Binary(22, a, b).w, Binary(23, a, b).w;
    ModuloLaw(a * p);
    FloorLaw(a, p);
    SmallWord(a / p);
    FloorLaw(Signed(a), p);
    SignedToWord(Signed(a) / p);
  }

  lemma ShiftValues(a: Word, b: Word)
    ensures Binary(21, a, b) == Val(ToWord(a * Pow2(b % 64)))
    ensures Binary(22, a, b) == Val(ToWord(a / Pow2(b % 64)))
    ensures Binary(23, a, b) == Val(ToWord(Signed(a) / Pow2(b % 64)))
  {
    hide Pow2, ToWord, Signed, Quotient, Divides, Bitwise;
  }

  lemma SmallWord(v: Word)
    ensures ToWord(v) == v
  {
  }

  lemma FloorLaw(a: int, p: nat)
    requires p > 0
    ensures a / p * p <= a < a / p * p + p
    ensures 0 <= a ==> 0 <= a / p <= a
    ensures a < 0 ==> a <= a / p < 0
  {
    var q, r := a / p, a % p;
    assert a == p * q + r;
    assert q * p == p * q;
    if a >= 0 {
      QuotientSmall(a, p);
    } else {
      NegativeFloor(a, p, q, r);
    }
  }

  lemma NegativeFloor(a: int, p: int, q: int, r: int)
    requires p > 0 && a == p * q + r && 0 <= r < p && a < 0
    ensures a <= q < 0
  {
    if q >= 0 {
      MulMonotone(p, 0, q);
    } else {
      var k := -(q + 1);
      assert p * q + p == -(k * p);
      if k > 0 {
        MulMonotone(k, 1, p);
      }
    }
  }

  // ----- The stacks -----

  /** dup, drop, over and _, by position. */
  lemma StackLaw(a: Word, b: Word, ds: seq<Word>, rs: seq<Word>)
    ensures Effects(6, [a] + ds, rs) == Ok([a, a] + ds, rs)
    ensures Effects(7, [a] + ds, rs) == Ok(ds, rs)
    ensures Effects(9, [b, a] + ds, rs) == Ok([a, b, a] + ds, rs)
    ensures Effects(46, ds, rs) == Ok(ds, rs)
  {
    assert [a] + ([a] + ds) == [a, a] + ds && ([a] + ds)[1..] == ds;
    assert [a] + ([b, a] + ds) == [a, b, a] + ds;
  }

  /** >r, r>, r@, rdrop and i0: i0 reads the top of the return stack, where a loop keeps its counter. */
  lemma ReturnStackLaw(a: Word, ds: seq<Word>, rs: seq<Word>)
    ensures Effects(34, [a] + ds, rs) == Ok(ds, [a] + rs)
    ensures Effects(35, ds, [a] + rs) == Ok([a] + ds, rs)
    ensures Effects(36, ds, [a] + rs) == Ok([a] + ds, [a] + rs)
    ensures Effects(37, ds, [a] + rs) == Ok(ds, rs)
    ensures Effects(43, ds, [a] + rs) == Ok([a] + ds, [a] + rs)
  {
    assert ([a] + ds)[1..] == ds && ([a] + rs)[1..] == rs;
  }

  /** Too few words on the data stack trap; an empty return stack is read below the frame. */
  lemma UnderflowLaw(id: U16, ds: seq<Word>, rs: seq<Word>)
    ensures |ds| < 2 && (IsBinary(id) || id == 9) ==> Effects(id, ds, rs) == Trap
    ensures |ds| < 1 && (id == 6 || id == 7 || id == 20 || 26 <= id <= 29 || id == 34) ==> Effects(id, ds, rs) == Trap
    ensures |rs| < 1 && (35 <= id <= 37 || id == 43) ==> Effects(id, ds, rs) == Escape
  {
  }

  /** All other numbers are outside the model. */
  lemma OtherLaw(id: U16, ds: seq<Word>, rs: seq<Word>)
    requires !IsBinary(id) && id != 6 && id != 7 && id != 9 && id != 20 && !(26 <= id <= 29) && !(34 <= id <= 37) && id != 43 && id != 46
    ensures Effects(id, ds, rs) == Trap
  {
  }
}
