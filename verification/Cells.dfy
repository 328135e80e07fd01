/** Tagged runtime cells (src/cells.c, first half). */
module Cells {
  import opened Words

  const TAG_XT: nat := 0
  const TAG_LIT: nat := 1
  const TAG_LST: nat := 2
  const TAG_LNT: nat := 6

  function EncodeXt(addr: Word): Word {
    addr - addr % 4
  }

  const EXIT: Word := 0

  /** ((uint64_t)value << 2) | 1: the shift drops the two top bits. */
  function EncodeLit(value: Int64): Word {
    ToWord(4 * value) + TAG_LIT - ToWord(4 * value) % 4
  }

  function EncodeLnt(count: Word): Word {
    ToWord(8 * count) - ToWord(8 * count) % 8 + TAG_LNT
  }

  function DecodeTag(cell: Word): nat {
    var low2 := cell % 4;
    if low2 == 3 then 0
    else if low2 == 2 then (if (cell / 4) % 2 == 1 then TAG_LNT else TAG_LST)
    else low2
  }

  /** Arithmetic shift right by two: Dafny's division rounds down, as sar does. */
  function DecodeLit(cell: Word): Int64 {
    Signed(cell) / 4
  }

  function DecodeXt(cell: Word): Word {
    cell - cell % 4
  }

  function DecodeLnt(cell: Word): Word {
    cell / 8
  }

  /** A LIT cell gives back the low 62 bits of what was put in, sign-extended. */
  lemma LitRoundTrip(v: Int64)
    ensures DecodeTag(EncodeLit(v)) == TAG_LIT
    ensures DecodeLit(EncodeLit(v)) == Low62(v)
  {
    var q := v / TWO_62;
    var r := v % TWO_62;
    assert v == TWO_62 * q + r;
    assert 4 * v == TWO_64 * q + 4 * r && 0 <= 4 * r < TWO_64;
    assert (4 * v) % TWO_64 == 4 * r;
    assert EncodeLit(v) == 4 * r + 1;
    if r < TWO_61 {
      assert Signed(EncodeLit(v)) == 4 * r + 1;
      assert (v + TWO_61) % TWO_62 == r + TWO_61;
    } else {
      assert Signed(EncodeLit(v)) == 4 * (r - TWO_62) + 1;
      assert v + TWO_61 == TWO_62 * (q + 1) + (r - TWO_61);
      assert (v + TWO_61) % TWO_62 == r - TWO_61;
    }
  }

  /** A LIT cell is exact for the 62-bit integers and for no other. */
  lemma LitExactIff62(v: Int64)
    ensures DecodeLit(EncodeLit(v)) == v <==> Fits62(v)
  {
    LitRoundTrip(v);
    Low62Exact(v);
  }

  /** An XT cell is never taken for a literal, and a four-byte-aligned address survives it. */
  lemma XtRoundTrip(addr: Word)
    ensures DecodeTag(EncodeXt(addr)) == TAG_XT
    ensures DecodeXt(EncodeXt(addr)) == addr <==> addr % 4 == 0
    ensures addr % 4 == 0 ==> (EncodeXt(addr) == EXIT <==> addr == 0)
  {
  }

  lemma LntRoundTrip(count: Word)
    ensures DecodeTag(EncodeLnt(count)) == TAG_LNT
    ensures DecodeLnt(EncodeLnt(count)) == count <==> count < TWO_61
  {
    var q := count / TWO_61;
    var r := count % TWO_61;
    assert 8 * count == TWO_64 * q + 8 * r && 0 <= 8 * r < TWO_64;
    assert (8 * count) % TWO_64 == 8 * r;
    assert EncodeLnt(count) == 8 * r + 6;
    assert (8 * r + 6) / 4 == 2 * r + 1;
  }
}
