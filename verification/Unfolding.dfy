/** What linking a CID means without any record of what was linked before: the code behind
    it written out in full, and what memory that spells it looks like. */
module Unfolding {
  import opened Words
  import opened Blob
  import opened Wrappers
  import opened Compiler
  import opened Linkage
  import opened Formats
  import Cells
  import Vm

  datatype Tree = Body(cells: seq<TreeCell>) | Bytes(data: seq<Byte>)

  /** A cell: the XT of a primitive, a literal, the XT of other code, or its address as a literal. */
  datatype TreeCell = Primitive(addr: Word) | Literal(v: Int64) | Enter(code: Tree) | Push(code: Tree)

  // ----- In memory -----

  /** The tree starts at the address. Neither the database nor the cache is consulted. */
  ghost predicate Spells(m: Vm.Image, copies: map<Word, seq<Byte>>, addr: Word, t: Tree)
    decreases t, 0
  {
    match t
    case Bytes(data) => addr != 0 && addr in copies && copies[addr] == data
    case Body(cells) =>
      && addr != 0 && addr % 4 == 0 && addr < USER_SPACE && addr !in m.prims && addr in m.words
      && CellsSpell(m, copies, m.words[addr], cells)
  }

  ghost predicate CellsSpell(m: Vm.Image, copies: map<Word, seq<Byte>>, base: Word, cells: seq<TreeCell>)
    decreases cells, 0
  {
    && base + 8 * |cells| < USER_SPACE
    && (forall i | 0 <= i < |cells| :: CellSpells(m, copies, Vm.Cell(base, i), cells[i]))
    && Vm.Cell(base, |cells|) in m.code && m.code[Vm.Cell(base, |cells|)] == Cells.EXIT
  }

  ghost predicate CellSpells(m: Vm.Image, copies: map<Word, seq<Byte>>, at: Word, c: TreeCell)
    decreases c, 1
  {
    at in m.code && WordSpells(m, copies, m.code[at], c)
  }

  ghost predicate WordSpells(m: Vm.Image, copies: map<Word, seq<Byte>>, w: Word, c: TreeCell)
    decreases c, 0
  {
    match c
    case Primitive(addr) => w == Cells.EncodeXt(addr)
    case Literal(v) => w == Cells.EncodeLit(v)
    case Enter(t) => exists a: Word :: w == Cells.EncodeXt(a) && Spells(m, copies, a, t)
    case Push(t) => exists a: Word :: w == Cells.EncodeLit(Signed(a)) && Spells(m, copies, a, t)
  }

  lemma CellAddress(base: Word, i: nat)
    requires base + 8 * i < 0x1_0000_0000_0000_0000
    ensures Vm.Cell(base, i) == base + 8 * i
  {
  }

  /** Spelled code, cell by cell: numbers where the tree has numbers, the address of spelled
      code where it has code, and a 0 at the end. */
  lemma SpelledCell(m: Vm.Image, copies: map<Word, seq<Byte>>, addr: Word, cells: seq<TreeCell>, i: nat)
    requires Spells(m, copies, addr, Body(cells)) && i <= |cells|
    ensures addr != 0 && addr % 4 == 0 && addr !in m.prims && addr in m.words && m.words[addr] + 8 * i in m.code
    ensures i == |cells| ==> m.code[m.words[addr] + 8 * i] == 0
    ensures i < |cells| ==> var w := m.code[m.words[addr] + 8 * i];
      match cells[i]
      case Primitive(a) => w % 4 == 0 && a - 4 < w <= a
      case Literal(v) => w == (4 * v + 1) % 0x1_0000_0000_0000_0000
      case Enter(t) => exists a: Word :: w % 4 == 0 && a - 4 < w <= a && Spells(m, copies, a, t)
      case Push(t) => exists a: Word :: w == (4 * a + 1) % 0x1_0000_0000_0000_0000 && Spells(m, copies, a, t)
  {
    var base := m.words[addr];
    assert CellsSpell(m, copies, base, cells);
    CellAddress(base, i);
    if i < |cells| {
      assert CellSpells(m, copies, Vm.Cell(base, i), cells[i]);
      CellNumbers(m, copies, m.code[base + 8 * i], cells[i]);
    }
  }

  lemma CellNumbers(m: Vm.Image, copies: map<Word, seq<Byte>>, w: Word, c: TreeCell)
    requires WordSpells(m, copies, w, c)
    ensures match c
      case Primitive(a) => w % 4 == 0 && a - 4 < w <= a
      case Literal(v) => w == (4 * v + 1) % 0x1_0000_0000_0000_0000
      case Enter(t) => exists a: Word :: w % 4 == 0 && a - 4 < w <= a && Spells(m, copies, a, t)
      case Push(t) => exists a: Word :: w == (4 * a + 1) % 0x1_0000_0000_0000_0000 && Spells(m, copies, a, t)
  {
    hide Spells, Cells.EncodeXt, Cells.EncodeLit, Signed;
    match c
    case Primitive(a) => CellForms(a, 0, 0);
    case Literal(v) => CellForms(0, v, 0);
    case Enter(t) =>
      var a: Word :| w == Cells.EncodeXt(a) && Spells(m, copies, a, t);
      CellForms(a, 0, 0);
    case Push(t) =>
      var a: Word :| w == Cells.EncodeLit(Signed(a)) && Spells(m, copies, a, t);
      CellForms(0, Signed(a), 0);
      PushedAddress(a);
  }

  lemma PushedAddress(a: Word)
    ensures (4 * Signed(a) + 1) % 0x1_0000_0000_0000_0000 == (4 * a + 1) % 0x1_0000_0000_0000_0000
  {
    var q, r := (4 * a + 1) / 0x1_0000_0000_0000_0000, (4 * a + 1) % 0x1_0000_0000_0000_0000;
    DivUnique(4 * Signed(a) + 1, 0x1_0000_0000_0000_0000, if a < TWO_63 then q else q - 4, r);
  }

  // ----- From the database -----

  /** The code behind a CID, every reference followed. */
  ghost function Unfold(store: Store, table: map<U16, Word>, rank: Rank, cid: Cid): Tree
    requires GoodStore(store, rank) && Resolves(store, table, rank, cid)
    decreases RankOf(rank, cid), 1
  {
    if IsCode(store[cid].kind) then
      assert GoodBlob(store, rank, cid);
      Body(UnfoldAll(store, table, rank, cid, Parse(store[cid].data).value))
    else Bytes(store[cid].data)
  }

  ghost function UnfoldAll(store: Store, table: map<U16, Word>, rank: Rank, owner: Cid, xs: seq<Item>): (cells: seq<TreeCell>)
    requires GoodStore(store, rank)
    requires forall i | 0 <= i < |xs| :: RefOk(store, rank, owner, xs[i])
    requires AllResolve(store, table, rank, owner, xs)
    ensures |cells| == |xs|
    ensures forall i | 0 <= i < |xs| :: cells[i] == UnfoldItem(store, table, rank, owner, xs[i])
    decreases RankOf(rank, owner), 0, |xs|
  {
    seq(|xs|, i requires 0 <= i < |xs| => UnfoldItem(store, table, rank, owner, xs[i]))
  }

  ghost function UnfoldItem(store: Store, table: map<U16, Word>, rank: Rank, owner: Cid, x: Item): TreeCell
    requires GoodStore(store, rank) && RefOk(store, rank, owner, x) && ItemResolves(store, table, rank, owner, x)
    decreases RankOf(rank, owner), 0, 0
  {
    match x
    case Op(id) => Primitive(table[id])
    case Inline(v) => Literal(v)
    case Ref(kind, c) =>
      assert Resolves(store, table, rank, c);
      if kind == KIND_DATA then Literal(DataValue(store[c].data))
      else if kind == KIND_QUOTATION then Push(Unfold(store, table, rank, c))
      else Enter(Unfold(store, table, rank, c))
  }

  // ----- A linker that remembers nothing is only ever matched -----

  /** What was linked with the help of the cache is the code written out in full. */
  lemma {:induction false} DenotesUnfolds(l: Link, rank: Rank, cid: Cid, addr: Word)
    requires Ok(l) && GoodStore(l.store, rank) && Resolves(l.store, l.table, rank, cid) && Denotes(l, cid, addr)
    ensures Spells(l.image, l.copies, addr, Unfold(l.store, l.table, rank, cid))
    decreases RankOf(rank, cid), 1
  {
    if IsCode(l.store[cid].kind) {
      hide Parse;
      var xs := Parse(l.store[cid].data).value;
      assert GoodBlob(l.store, rank, cid);
      var cells := UnfoldAll(l.store, l.table, rank, cid, xs);
      var base := l.image.words[addr];
      forall i | 0 <= i < |xs|
        ensures CellSpells(l.image, l.copies, Vm.Cell(base, i), cells[i])
      {
        assert HasCell(l, base, i, xs[i]);
        assert RefOk(l.store, rank, cid, xs[i]) && ItemResolves(l.store, l.table, rank, cid, xs[i]);
        ItemUnfolds(l, rank, cid, xs[i], l.image.code[Vm.Cell(base, i)]);
      }
    }
  }

  lemma {:induction false} ItemUnfolds(l: Link, rank: Rank, owner: Cid, x: Item, w: Word)
    requires Ok(l) && GoodStore(l.store, rank) && RefOk(l.store, rank, owner, x) && ItemResolves(l.store, l.table, rank, owner, x)
    requires CellFor(l, x) == Some(w)
    ensures WordSpells(l.image, l.copies, w, UnfoldItem(l.store, l.table, rank, owner, x))
    decreases RankOf(rank, owner), 0
  {
    if x.Ref? && x.kind != KIND_DATA {
      DenotesUnfolds(l, rank, x.cid, l.cache[x.cid]);
    }
  }

  /** Spelled code stays where it is while more is linked. */
  lemma {:induction false} SpellsExtends(l: Link, l': Link, addr: Word, t: Tree)
    requires Extends(l, l') && Spells(l.image, l.copies, addr, t)
    ensures Spells(l'.image, l'.copies, addr, t)
    decreases t, 1
  {
    if t.Body? {
      var base := l.image.words[addr];
      forall i | 0 <= i < |t.cells|
        ensures CellSpells(l'.image, l'.copies, Vm.Cell(base, i), t.cells[i])
      {
        assert CellSpells(l.image, l.copies, Vm.Cell(base, i), t.cells[i]);
        WordSpellsExtends(l, l', l.image.code[Vm.Cell(base, i)], t.cells[i]);
      }
    }
  }

  lemma {:induction false} WordSpellsExtends(l: Link, l': Link, w: Word, c: TreeCell)
    requires Extends(l, l') && WordSpells(l.image, l.copies, w, c)
    ensures WordSpells(l'.image, l'.copies, w, c)
    decreases c, 0
  {
    match c
    case Enter(t) =>
      var a: Word :| w == Cells.EncodeXt(a) && Spells(l.image, l.copies, a, t);
      SpellsExtends(l, l', a, t);
    case Push(t) =>
      var a: Word :| w == Cells.EncodeLit(Signed(a)) && Spells(l.image, l.copies, a, t);
      SpellsExtends(l, l', a, t);
    case _ =>
  }
}
