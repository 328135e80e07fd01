/** Machine integers as the C and assembly sources use them: 64-bit words held
    as naturals, their two's-complement reading, and little-endian bytes. */
module Words {

  const TWO_61: int := 0x2000_0000_0000_0000
  const TWO_62: int := 0x4000_0000_0000_0000
  const TWO_63: int := 0x8000_0000_0000_0000
  const TWO_64: int := 0x1_0000_0000_0000_0000

  type Word = w: int | 0 <= w < 0x1_0000_0000_0000_0000
  type Int64 = v: int | -0x8000_0000_0000_0000 <= v < 0x8000_0000_0000_0000
  type Byte = b: int | 0 <= b < 256

  /** The unsigned word with the same bits as the integer. */
  function ToWord(v: int): Word {
    v % TWO_64
  }

  /** The two's-complement reading of a word. */
  function Signed(w: Word): Int64 {
    if w < TWO_63 then w else w - TWO_64
  }

  lemma SignedToWord(v: Int64)
    ensures Signed(ToWord(v)) == v
  {
    if v < 0 {
      assert (v + TWO_64) % TWO_64 == v + TWO_64;
    }
  }

  lemma WordOfSigned(w: Word)
    ensures ToWord(Signed(w)) == w
  {
    if w >= TWO_63 {
      assert (w - TWO_64 + TWO_64) % TWO_64 == w;
    }
  }

  function Pow2(n: nat): (p: nat)
    ensures p > 0
  {
    if n == 0 then 1 else 2 * Pow2(n - 1)
  }

  // ----- Little-endian bytes -----

  ghost function Pow256(n: nat): (p: nat)
    ensures p > 0
  {
    if n == 0 then 1 else 256 * Pow256(n - 1)
  }

  function LittleEndian(w: nat, n: nat): (bs: seq<Byte>)
    ensures |bs| == n
  {
    if n == 0 then [] else [w % 256] + LittleEndian(w / 256, n - 1)
  }

  function FromLittleEndian(bs: seq<Byte>): (w: nat) {
    if bs == [] then 0 else bs[0] + 256 * FromLittleEndian(bs[1..])
  }

  lemma {:induction false} LittleEndianRoundTrip(w: nat, n: nat)
    requires w < Pow256(n)
    ensures FromLittleEndian(LittleEndian(w, n)) == w
  {
    if n == 0 {
    } else {
      LittleEndianRoundTrip(w / 256, n - 1);
      assert LittleEndian(w, n)[1..] == LittleEndian(w / 256, n - 1);
    }
  }

  lemma {:induction false} FromLittleEndianBound(bs: seq<Byte>)
    ensures FromLittleEndian(bs) < Pow256(|bs|)
  {
    if bs == [] {
    } else {
      FromLittleEndianBound(bs[1..]);
    }
  }

  lemma {:induction false} LittleEndianOfBytes(bs: seq<Byte>)
    ensures LittleEndian(FromLittleEndian(bs), |bs|) == bs
  {
    if bs == [] {
    } else {
      LittleEndianOfBytes(bs[1..]);
      var r := FromLittleEndian(bs[1..]);
      assert (bs[0] + 256 * r) / 256 == r && (bs[0] + 256 * r) % 256 == bs[0];
    }
  }

  lemma {:induction false} DivDiv(w: nat, a: nat, b: nat)
    requires a > 0 && b > 0
    ensures a * b > 0 && w / a / b == w / (a * b)
  {
    var q := w / (a * b);
    var r := w % (a * b);
    assert w == (a * b) * q + r;
    assert w == a * (b * q) + r by { assert (a * b) * q == a * (b * q); }
    assert w / a == b * q + r / a by {
      assert r == a * (r / a) + r % a;
      assert w == a * (b * q + r / a) + r % a by {
        assert a * (b * q + r / a) == a * (b * q) + a * (r / a);
      }
      DivUnique(w, a, b * q + r / a, r % a);
    }
    assert 0 <= r / a < b by {
      if r / a >= b {
        MulMonotone(a, b, r / a);
        assert false;
      }
    }
    DivUnique(b * q + r / a, b, q, r / a);
  }

  lemma DivUnique(w: int, d: int, q: int, r: int)
    requires d > 0 && 0 <= r < d && w == d * q + r
    ensures w / d == q && w % d == r
  {
    var q', r' := w / d, w % d;
    assert w == d * q' + r' && 0 <= r' < d;
    assert d * (q - q') == r' - r by { assert d * (q - q') == d * q - d * q'; }
    if q > q' {
      MulMonotone(d, 1, q - q');
      assert false;
    } else if q < q' {
      MulMonotone(d, q - q', -1);
      assert false;
    }
  }

  lemma MulMonotone(a: int, x: int, y: int)
    requires a > 0 && x <= y
    ensures a * x <= a * y
  {
    assert a * y - a * x == a * (y - x);
  }

  /** The byte a C loop reads with (value >> (i * 8)) & 0xFF extends the bytes read so far. */
  lemma {:induction false} LittleEndianSnoc(w: nat, n: nat)
    ensures LittleEndian(w, n + 1) == LittleEndian(w, n) + [(w / Pow256(n)) % 256]
  {
    if n == 0 {
      assert LittleEndian(w, 1) == [w % 256] + LittleEndian(w / 256, 0);
    } else {
      LittleEndianSnoc(w / 256, n - 1);
      DivDiv(w, 256, Pow256(n - 1));
      calc {
        LittleEndian(w, n + 1);
        [w % 256] + LittleEndian(w / 256, n);
        [w % 256] + (LittleEndian(w / 256, n - 1) + [(w / 256 / Pow256(n - 1)) % 256]);
        LittleEndian(w, n) + [(w / Pow256(n)) % 256];
      }
    }
  }

  /** The value a C loop builds with value |= byte << (i * 8). */
  lemma {:induction false} FromLittleEndianSnoc(bs: seq<Byte>, b: Byte)
    ensures FromLittleEndian(bs + [b]) == FromLittleEndian(bs) + Pow256(|bs|) * b
  {
    if bs == [] {
      assert [] + [b] == [b];
    } else {
      FromLittleEndianSnoc(bs[1..], b);
      assert (bs + [b])[1..] == bs[1..] + [b];
      assert 256 * (Pow256(|bs| - 1) * b) == Pow256(|bs|) * b;
    }
  }

  lemma Pow256At8()
    ensures Pow256(8) == TWO_64
  {
    assert Pow256(2) == 0x1_0000;
    assert Pow256(4) == 0x1_0000_0000 by { assert Pow256(3) == 256 * Pow256(2); }
    assert Pow256(6) == 0x1_0000_0000_0000 by { assert Pow256(5) == 256 * Pow256(4); }
    assert Pow256(7) == 256 * Pow256(6);
  }

  // ----- 62-bit literals -----

  /** The integer whose 62-bit two's-complement representation is the low 62 bits of v. */
  function Low62(v: int): (r: int)
    ensures -TWO_61 <= r < TWO_61
  {
    (v + TWO_61) % TWO_62 - TWO_61
  }

  predicate Fits62(v: int) {
    -TWO_61 <= v < TWO_61
  }

  lemma Low62Exact(v: int)
    ensures Low62(v) == v <==> Fits62(v)
  {
    if Fits62(v) {
      assert 0 <= v + TWO_61 < TWO_62;
    }
  }

  // ----- Free addresses -----

  ghost function Largest(s: set<nat>): (m: nat)
    ensures forall x | x in s :: x <= m
  {
    if s == {} then 0
    else
      var x :| x in s;
      var m := Largest(s - {x});
      assert forall y | y in s :: y == x || y in s - {x};
      if x <= m then m else x
  }
}
