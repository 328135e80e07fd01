/** What linked code in memory has to look like, and how more linking preserves it. */
module Linkage {
  import opened Words
  import opened Blob
  import opened Wrappers
  import Cells
  import Vm
  import opened Compiler

  /** Addresses handed out by malloc and mmap are user-space addresses. */
  const USER_SPACE: nat := 0x8000_0000_0000

  /** The loader's view of the world: the database, the primitive dispatch table, the
      address of every linked CID, the copied data blobs and the machine's memory. */
  datatype Link = Link(store: Store, table: map<U16, Word>, cache: map<Cid, Word>,
                       copies: map<Word, seq<Byte>>, image: Vm.Image)

  predicate IsCode(kind: U16) {
    kind == KIND_WORD || kind == KIND_QUOTATION
  }

  /** The cell an item is linked to; None while the item cannot be resolved. */
  function CellFor(l: Link, x: Item): Option<Word> {
    match x
    case Op(id) => if id in l.table then Some(Cells.EncodeXt(l.table[id])) else None
    case Inline(v) => Some(Cells.EncodeLit(v))
    case Ref(kind, cid) =>
      if cid !in l.cache then None
      else if kind == KIND_WORD || kind == KIND_PRIMITIVE then Some(Cells.EncodeXt(l.cache[cid]))
      else if kind == KIND_QUOTATION then Some(Cells.EncodeLit(Signed(l.cache[cid])))
      else if kind == KIND_DATA && cid in l.store && |l.store[cid].data| >= 8 then
        Some(Cells.EncodeLit(DataValue(l.store[cid].data)))
      else None
  }

  /** *(int64_t*)addr at the front of a copied data blob. */
  function DataValue(data: seq<Byte>): Int64
    requires |data| >= 8
  {
    FromLittleEndianBound(data[..8]);
    Pow256At8();
    Signed(FromLittleEndian(data[..8]))
  }

  /** The items, and the EXIT after them, stand as cells at the given address. */
  ghost predicate CodeAt(l: Link, base: Word, xs: seq<Item>) {
    && base + 8 * |xs| < USER_SPACE
    && (forall i | 0 <= i < |xs| :: HasCell(l, base, i, xs[i]))
    && Vm.Cell(base, |xs|) in l.image.code
    && l.image.code[Vm.Cell(base, |xs|)] == Cells.EXIT
  }

  ghost predicate HasCell(l: Link, base: Word, i: int, x: Item) {
    var a := Vm.Cell(base, i);
    a in l.image.code && CellFor(l, x) == Some(l.image.code[a])
  }

  /** A wrapper's address is neither EXIT nor a primitive, and survives the XT tag. */
  predicate CallableAddr(l: Link, addr: Word) {
    addr != 0 && addr % 4 == 0 && addr < USER_SPACE && addr !in l.image.prims
  }

  /** The address denotes the record stored under the CID: a wrapper around its code, or
      a copy of its data. */
  ghost predicate Denotes(l: Link, cid: Cid, addr: Word) {
    cid in l.store && addr != 0 &&
    var r := l.store[cid];
    if IsCode(r.kind) then
      && CallableAddr(l, addr)
      && addr in l.image.words
      && Parse(r.data).Some?
      && CodeAt(l, l.image.words[addr], Parse(r.data).value)
    else r.kind == KIND_DATA && addr in l.copies && l.copies[addr] == r.data
  }

  /** primitive_dispatch_table against the machine code it points to. */
  predicate TableOk(l: Link) {
    forall id | id in l.table :: 1 <= id < 256 && PrimAddr(l, id, l.table[id])
  }

  predicate PrimAddr(l: Link, id: U16, addr: Word) {
    addr != 0 && addr % 4 == 0 && addr in l.image.prims && l.image.prims[addr] == id
  }

  ghost predicate Ok(l: Link) {
    TableOk(l) && forall cid | cid in l.cache :: Denotes(l, cid, l.cache[cid])
  }

  /** Records are added and never replaced. */
  ghost predicate Grown(store: Store, store': Store) {
    forall c | c in store :: c in store' && store'[c] == store[c]
  }

  /** More has been stored or linked; nothing that was there has changed. */
  ghost predicate Extends(l: Link, l': Link) {
    && l'.table == l.table && l'.image.prims == l.image.prims && Grown(l.store, l'.store)
    && (forall c | c in l.cache :: c in l'.cache && l'.cache[c] == l.cache[c])
    && (forall a | a in l.copies :: a in l'.copies && l'.copies[a] == l.copies[a])
    && (forall a | a in l.image.code :: a in l'.image.code && l'.image.code[a] == l.image.code[a])
    && (forall a | a in l.image.words :: a in l'.image.words && l'.image.words[a] == l.image.words[a])
  }

  lemma ExtendsItself(l: Link)
    ensures Extends(l, l)
  {
  }

  lemma ExtendsTransitive(l: Link, l': Link, l'': Link)
    requires Extends(l, l') && Extends(l', l'')
    ensures Extends(l, l'')
  {
  }

  lemma DenotesExtends(l: Link, l': Link, cid: Cid, addr: Word)
    requires Extends(l, l') && Denotes(l, cid, addr)
    ensures Denotes(l', cid, addr)
  {
    if IsCode(l.store[cid].kind) {
      CodeAtExtends(l, l', l.image.words[addr], Parse(l.store[cid].data).value);
    }
  }

  /** Everything linked before denotes what it did, with possibly one CID more. */
  lemma OkExtends(l: Link, l': Link)
    requires Ok(l) && Extends(l, l')
    requires forall c | c in l'.cache && c !in l.cache :: Denotes(l', c, l'.cache[c])
    ensures Ok(l')
  {
    forall c | c in l'.cache
      ensures Denotes(l', c, l'.cache[c])
    {
      if c in l.cache {
        DenotesExtends(l, l', c, l.cache[c]);
      }
    }
  }

  lemma CodeAtExtends(l: Link, l': Link, base: Word, xs: seq<Item>)
    requires Extends(l, l') && CodeAt(l, base, xs)
    ensures CodeAt(l', base, xs)
  {
    forall i | 0 <= i < |xs|
      ensures HasCell(l', base, i, xs[i])
    {
      assert HasCell(l, base, i, xs[i]);
      CellForExtends(l, l', xs[i]);
    }
  }

  lemma CellForExtends(l: Link, l': Link, x: Item)
    requires Extends(l, l') && CellFor(l, x).Some?
    ensures CellFor(l', x) == CellFor(l, x)
  {
  }

  // ----- When linking succeeds -----

  type Rank = map<Cid, nat>

  function RankOf(rank: Rank, cid: Cid): nat {
    if cid in rank then rank[cid] else 0
  }

  /** A reference agrees with the record it names, and that record comes earlier. */
  ghost predicate RefOk(store: Store, rank: Rank, owner: Cid, x: Item) {
    x.Ref? ==>
      RankOf(rank, x.cid) < RankOf(rank, owner) && (x.cid in store ==>
      && (x.kind == KIND_DATA ==> !IsCode(store[x.cid].kind))
      && (x.kind == store[x.cid].kind == KIND_DATA ==> |store[x.cid].data| >= 8)
      && (x.kind < KIND_DATA ==> store[x.cid].kind != KIND_DATA))
  }

  /** What the loader takes for granted of the database: code blobs end on an item boundary,
      references form no cycle, and reference kinds agree with stored kinds. */
  ghost predicate GoodStore(store: Store, rank: Rank) {
    forall cid | cid in store && IsCode(store[cid].kind) :: GoodBlob(store, rank, cid)
  }

  ghost predicate GoodBlob(store: Store, rank: Rank, cid: Cid)
    requires cid in store
  {
    Parse(store[cid].data).Some? &&
    forall i | 0 <= i < |Parse(store[cid].data).value| ::
      RefOk(store, rank, cid, Parse(store[cid].data).value[i])
  }

  /** Everything a CID leads to is in the database and in the dispatch table. */
  ghost predicate Resolves(store: Store, table: map<U16, Word>, rank: Rank, cid: Cid)
    requires GoodStore(store, rank)
    decreases RankOf(rank, cid), 1
  {
    cid in store &&
    if IsCode(store[cid].kind) then
      assert GoodBlob(store, rank, cid);
      AllResolve(store, table, rank, cid, Parse(store[cid].data).value)
    else store[cid].kind == KIND_DATA
  }

  ghost predicate AllResolve(store: Store, table: map<U16, Word>, rank: Rank, owner: Cid, xs: seq<Item>)
    requires GoodStore(store, rank)
    requires forall i | 0 <= i < |xs| :: RefOk(store, rank, owner, xs[i])
    decreases RankOf(rank, owner), 0, |xs|
  {
    forall i | 0 <= i < |xs| :: ItemResolves(store, table, rank, owner, xs[i])
  }

  ghost predicate ItemResolves(store: Store, table: map<U16, Word>, rank: Rank, owner: Cid, x: Item)
    requires GoodStore(store, rank) && RefOk(store, rank, owner, x)
    decreases RankOf(rank, owner), 0, 0
  {
    match x
    case Op(id) => id in table
    case Inline(_) => true
    case Ref(kind, c) => kind <= KIND_DATA && c in store && Resolves(store, table, rank, c)
  }
}
