/** The numbers of the two formats (src/cells.c, src/types.h): the bits of a tagged cell and
    the bytes of a blob. */
module Formats {
  import opened Words
  import opened Blob
  import Cells

  /** An XT cell is the address without its two low bits, a LIT cell 4 * v + 1 and an LNT cell
      8 * count + 6, all in 64 bits. */
  lemma CellForms(addr: Word, v: Int64, count: Word)
    ensures Cells.EncodeXt(addr) % 4 == 0 && addr - 4 < Cells.EncodeXt(addr) <= addr
    ensures Cells.EncodeLit(v) == (4 * v + 1) % 0x1_0000_0000_0000_0000
    ensures Cells.EncodeLnt(count) == (8 * count + 6) % 0x1_0000_0000_0000_0000
  {
    OddWord(4 * v, 4, 1);
    OddWord(8 * count, 8, 6);
  }

  lemma OddWord(n: int, step: int, low: int)
    requires (step == 4 || step == 8) && n % step == 0 && 0 <= low < step
    ensures ToWord(n) % step == 0 && (n + low) % 0x1_0000_0000_0000_0000 == ToWord(n) + low
  {
    var m, q, r := n / step, n / 0x1_0000_0000_0000_0000, n % 0x1_0000_0000_0000_0000;
    assert n == 0x1_0000_0000_0000_0000 * q + r;
    if step == 4 {
      DivUnique(r, 4, m - 0x4000_0000_0000_0000 * q, 0);
    } else {
      DivUnique(r, 8, m - 0x2000_0000_0000_0000 * q, 0);
    }
    Below(r, step, low);
    DivUnique(n + low, 0x1_0000_0000_0000_0000, q, r + low);
  }

  lemma Below(r: Word, step: int, low: int)
    requires (step == 4 || step == 8) && r % step == 0 && 0 <= low < step
    ensures r + low < 0x1_0000_0000_0000_0000
  {
  }

  /** What a cell's low bits say, and what is in the others. */
  lemma CellBits(c: Word)
    ensures Cells.DecodeTag(c) == if c % 4 == 1 then 1 else if c % 8 == 2 then 2 else if c % 8 == 6 then 6 else 0
    ensures Cells.DecodeXt(c) == 4 * (c / 4) && Cells.DecodeLnt(c) == c / 8
    ensures Cells.DecodeLit(c) == if c < 0x8000_0000_0000_0000 then c / 4 else c / 4 - 0x4000_0000_0000_0000
  {
    if c >= 0x8000_0000_0000_0000 {
      DivUnique(c - 0x1_0000_0000_0000_0000, 4, c / 4 - 0x4000_0000_0000_0000, c % 4);
    }
  }

  /** The literals that fit a cell, and what is left of the others. */
  lemma LiteralRange(v: Int64)
    ensures Fits62(v) <==> -0x2000_0000_0000_0000 <= v < 0x2000_0000_0000_0000
    ensures -0x2000_0000_0000_0000 <= Low62(v) < 0x2000_0000_0000_0000 && (v - Low62(v)) % 0x4000_0000_0000_0000 == 0
  {
    var q := (v + 0x2000_0000_0000_0000) / 0x4000_0000_0000_0000;
    assert v - Low62(v) == 0x4000_0000_0000_0000 * q;
  }

  /** Eight bytes, the lowest first. */
  lemma WordBytes(w: Word)
    ensures LittleEndian(w, 8) == [w % 256, w / 0x100 % 256, w / 0x1_0000 % 256, w / 0x100_0000 % 256, w / 0x1_0000_0000 % 256,
      w / 0x100_0000_0000 % 256, w / 0x1_0000_0000_0000 % 256, w / 0x100_0000_0000_0000 % 256]
  {
    assert LittleEndian(w, 0) == [];
    LittleEndianSnoc(w, 0);
    LittleEndianSnoc(w, 1);
    LittleEndianSnoc(w, 2);
    LittleEndianSnoc(w, 3);
    LittleEndianSnoc(w, 4);
    LittleEndianSnoc(w, 5);
    LittleEndianSnoc(w, 6);
    LittleEndianSnoc(w, 7);
    FirstPowers();
    hide LittleEndian, Pow256;
  }

  lemma FirstPowers()
    ensures Pow256(0) == 1 && Pow256(1) == 0x100 && Pow256(2) == 0x1_0000 && Pow256(3) == 0x100_0000 && Pow256(4) == 0x1_0000_0000
    ensures Pow256(5) == 0x100_0000_0000 && Pow256(6) == 0x1_0000_0000_0000 && Pow256(7) == 0x100_0000_0000_0000
  {
  }

  /** A tag is two bytes, the lower first: an even number, twice its id, for a primitive, 0 for
      a literal and an odd one, twice the kind and one, in front of a CID. */
  lemma ItemBytes(id: U16, v: Int64, kind: U16, cid: Cid)
    ensures id < 0x8000 ==> EncodeItem(Op(id)) == [2 * id % 256, 2 * id / 256]
    ensures EncodeItem(Inline(v))[..2] == [0, 0] && EncodeItem(Inline(v))[2..] == LittleEndian(v % 0x1_0000_0000_0000_0000, 8)
    ensures kind < 0x8000 ==> EncodeItem(Ref(kind, cid)) == [(2 * kind + 1) % 256, (2 * kind + 1) / 256] + cid
    ensures KIND_PRIMITIVE == 0 && KIND_WORD == 1 && KIND_QUOTATION == 2 && KIND_DATA == 3 && |cid| == 32
  {
    hide LittleEndian;
  }
}
