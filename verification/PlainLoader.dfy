/** Linking with no memory of what was linked: every reference is linked anew. It is the
    yardstick for src/loader.c:330-518, which caches. */
module PlainLoader {
  import opened Words
  import opened Blob
  import opened Wrappers
  import opened Compiler
  import opened Linkage
  import opened Unfolding
  import opened Room
  import Cells
  import Vm
  import Loader

  class PlainLinker {
    const store: Store
    const table: map<U16, Word>
    const space: Space
    var outOfMemory: bool

    ghost function View(): Link
      reads space
    {
      Link(store, table, map[], space.copies, space.image)
    }

    ghost predicate Valid(rank: Rank)
      reads space
    {
      GoodStore(store, rank) && TableOk(View())
    }

    constructor (store: Store, table: map<U16, Word>, prims: map<Word, U16>, ghost rank: Rank)
      requires GoodStore(store, rank)
      requires TableOk(Link(store, table, map[], map[], Vm.Image(map[], prims, map[])))
      ensures Valid(rank) && fresh(space) && !outOfMemory
      ensures this.store == store && this.table == table && space.image == Vm.Image(map[], prims, map[])
    {
      this.store, this.table := store, table;
      space := new Space(prims);
      outOfMemory := false;
    }

    method LinkCid(cid: Cid, ghost rank: Rank) returns (r: Option<Word>)
      requires Valid(rank)
      modifies this`outOfMemory, space
      ensures Valid(rank) && Extends(old(View()), View()) && (old(outOfMemory) ==> outOfMemory)
      ensures r.Some? ==>
        Resolves(store, table, rank, cid) && Spells(space.image, space.copies, r.value, Unfold(store, table, rank, cid))
      ensures r.None? ==> outOfMemory || !Resolves(store, table, rank, cid)
      decreases RankOf(rank, cid), 3
    {
      hide Parse, Extends, GoodStore;
      ExtendsItself(View());
      Loader.UnresolvedRecord(store, table, rank, cid);
      if cid !in store {
        return None;
      }
      var record := store[cid];
      if IsCode(record.kind) {
        r := LinkCode(record.data, cid, rank);
      } else if record.kind == KIND_DATA {
        ghost var before := View();
        r := space.CopyData(record.data);
        outOfMemory := outOfMemory || r.None?;
        CopyMade(before, View());
      } else {
        return None;
      }
    }

    method LinkCode(data: seq<Byte>, ghost owner: Cid, ghost rank: Rank) returns (r: Option<Word>)
      requires Valid(rank) && owner in store && IsCode(store[owner].kind) && store[owner].data == data
      modifies this`outOfMemory, space
      ensures Valid(rank) && Extends(old(View()), View()) && (old(outOfMemory) ==> outOfMemory)
      ensures r.Some? ==>
        Resolves(store, table, rank, owner) && Spells(space.image, space.copies, r.value, Unfold(store, table, rank, owner))
      ensures r.None? ==> outOfMemory || !Resolves(store, table, rank, owner)
      decreases RankOf(rank, owner), 2
    {
      hide Parse, Extends, GoodStore, Resolves, ItemResolves, Unfold, UnfoldItem, Spells, WordSpells, DecodeItem, TableOk;
      Loader.GoodBlobOf(store, rank, owner);
      ghost var xs, before := Parse(data).value, View();
      ExtendsItself(before);
      var cells: seq<Word> := [];
      var ptr := 0;
      while ptr < |data|
        invariant 0 <= ptr <= |data|
        invariant Valid(rank) && Extends(before, View()) && (old(outOfMemory) ==> outOfMemory)
        invariant |cells| <= |xs| && Parse(data[ptr..]) == Some(xs[|cells|..])
        invariant Written(View(), rank, owner, xs, cells)
        decreases |data| - ptr
      {
        ghost var n, head := |cells|, View();
        Loader.ParseHead(data[ptr..], xs[n..]);
        var isCid, idOrKind, payload, next := DecodeTagEx(data, ptr);
        assert data[ptr..][next - ptr..] == data[next..];
        assert xs[n..][1..] == xs[n + 1..];
        var cell := LinkItem(isCid, idOrKind, payload, xs[n], owner, rank);
        ExtendsTransitive(before, head, View());
        if cell.None? {
          if !ItemResolves(store, table, rank, owner, xs[n]) {
            Loader.UnresolvedItem(store, table, rank, owner, n);
          }
          return None;
        }
        WrittenMore(head, View(), rank, owner, xs, cells, cell.value);
        cells := cells + [cell.value];
        ptr := next;
      }
      assert data[ptr..] == [];
      Loader.ParseEmpty();
      ghost var tail := View();
      AllResolved(View(), rank, owner, xs, cells);
      r := Install(cells, xs, owner, rank);
      ExtendsTransitive(before, tail, View());
    }

    /** The switch on one decoded tag. */
    method LinkItem(isCid: bool, idOrKind: U16, payload: seq<Byte>, ghost x: Item, ghost owner: Cid, ghost rank: Rank)
      returns (cell: Option<Word>)
      requires Valid(rank) && RefOk(store, rank, owner, x) && Loader.Describes(isCid, idOrKind, payload, x)
      modifies this`outOfMemory, space
      ensures Valid(rank) && Extends(old(View()), View()) && (old(outOfMemory) ==> outOfMemory)
      ensures cell.Some? ==> CellWritten(View(), rank, owner, x, cell.value)
      ensures cell.None? ==> outOfMemory || !ItemResolves(store, table, rank, owner, x)
      decreases RankOf(rank, owner), 1
    {
      if !isCid {
        if idOrKind == PRIM_LIT {
          var value := ReadLittleEndian(payload);
          cell := Some(Cells.EncodeLit(value));
        } else if idOrKind >= 256 || idOrKind !in table {
          cell := None;
        } else {
          cell := Some(Cells.EncodeXt(table[idOrKind]));
        }
      } else {
        var addr := LinkCid(payload, rank);
        if addr.None? {
          return None;
        }
        if idOrKind == KIND_WORD || idOrKind == KIND_PRIMITIVE {
          cell := Some(Cells.EncodeXt(addr.value));
        } else if idOrKind == KIND_QUOTATION {
          cell := Some(Cells.EncodeLit(Signed(addr.value)));
        } else if idOrKind == KIND_DATA {
          var value := ReadLittleEndian(space.copies[addr.value][..8]);
          cell := Some(Cells.EncodeLit(value));
        } else {
          cell := None;
        }
      }
    }

    method Install(cells: seq<Word>, ghost xs: seq<Item>, ghost owner: Cid, ghost rank: Rank) returns (r: Option<Word>)
      requires Valid(rank) && owner in store && IsCode(store[owner].kind) && Parse(store[owner].data) == Some(xs)
      requires |cells| == |xs| && Written(View(), rank, owner, xs, cells) && Resolves(store, table, rank, owner)
      modifies this`outOfMemory, space
      ensures Valid(rank) && Extends(old(View()), View()) && (old(outOfMemory) ==> outOfMemory)
      ensures r.None? ==> outOfMemory
      ensures r.Some? ==> Spells(space.image, space.copies, r.value, Unfold(store, table, rank, owner))
    {
      hide Parse, Written, Resolves, Spells, Unfold, FreeRegion, FreeWrapper, WithCells, GoodStore, Extends, TableOk;
      ghost var v0 := View();
      ExtendsItself(v0);
      Loader.GoodBlobOf(store, rank, owner);
      var all := cells + [Cells.EXIT];
      var base := space.AllocCells(all);
      if base.None? {
        outOfMemory := true;
        return None;
      }
      ghost var v1 := View();
      CellsPlaced(v0, rank, owner, xs, cells, base.value);
      r := space.CreateDocolWrapper(base.value);
      if r.None? {
        outOfMemory := true;
        return None;
      }
      BodyPlaced(v1, rank, owner, xs, base.value, r.value);
      ExtendsTransitive(v0, v1, View());
    }
  }

  /** The cells built so far spell the first items. */
  ghost predicate Written(l: Link, rank: Rank, owner: Cid, xs: seq<Item>, cells: seq<Word>)
    requires GoodStore(l.store, rank) && forall i | 0 <= i < |xs| :: RefOk(l.store, rank, owner, xs[i])
  {
    |cells| <= |xs| && forall i | 0 <= i < |cells| :: CellWritten(l, rank, owner, xs[i], cells[i])
  }

  ghost predicate CellWritten(l: Link, rank: Rank, owner: Cid, x: Item, w: Word)
    requires GoodStore(l.store, rank) && RefOk(l.store, rank, owner, x)
  {
    ItemResolves(l.store, l.table, rank, owner, x) &&
    WordSpells(l.image, l.copies, w, UnfoldItem(l.store, l.table, rank, owner, x))
  }

  lemma WrittenMore(l: Link, l': Link, rank: Rank, owner: Cid, xs: seq<Item>, cells: seq<Word>, w: Word)
    requires GoodStore(l.store, rank) && (forall i | 0 <= i < |xs| :: RefOk(l.store, rank, owner, xs[i]))
    requires Extends(l, l') && l'.store == l.store && Written(l, rank, owner, xs, cells)
    requires |cells| < |xs| && CellWritten(l', rank, owner, xs[|cells|], w)
    ensures Written(l', rank, owner, xs, cells + [w])
  {
    hide GoodStore;
    forall i | 0 <= i < |cells|
      ensures CellWritten(l', rank, owner, xs[i], cells[i])
    {
      assert CellWritten(l, rank, owner, xs[i], cells[i]);
      WordSpellsExtends(l, l', cells[i], UnfoldItem(l.store, l.table, rank, owner, xs[i]));
    }
  }

  lemma AllResolved(l: Link, rank: Rank, owner: Cid, xs: seq<Item>, cells: seq<Word>)
    requires GoodStore(l.store, rank) && owner in l.store && IsCode(l.store[owner].kind) && GoodBlob(l.store, rank, owner)
    requires Parse(l.store[owner].data) == Some(xs) && |cells| == |xs| && Written(l, rank, owner, xs, cells)
    ensures Resolves(l.store, l.table, rank, owner)
  {
    hide Parse, ItemResolves, Resolves;
    forall i | 0 <= i < |xs|
      ensures ItemResolves(l.store, l.table, rank, owner, xs[i])
    {
      assert CellWritten(l, rank, owner, xs[i], cells[i]);
    }
    Loader.AllItemsResolve(l.store, l.table, rank, owner);
  }

  lemma CopyMade(l: Link, l': Link)
    requires l' == l.(copies := l'.copies) && forall a | a in l.copies :: a in l'.copies && l'.copies[a] == l.copies[a]
    ensures Extends(l, l') && (TableOk(l) ==> TableOk(l'))
  {
  }

  /** The items and an EXIT at an address, every reference followed. */
  ghost predicate BodyAt(l: Link, rank: Rank, owner: Cid, xs: seq<Item>, base: Word)
    requires GoodStore(l.store, rank) && forall i | 0 <= i < |xs| :: RefOk(l.store, rank, owner, xs[i])
    requires AllResolve(l.store, l.table, rank, owner, xs)
  {
    CellsSpell(l.image, l.copies, base, UnfoldAll(l.store, l.table, rank, owner, xs))
  }

  lemma CellsPlaced(l: Link, rank: Rank, owner: Cid, xs: seq<Item>, cells: seq<Word>, base: Word)
    requires GoodStore(l.store, rank) && (forall i | 0 <= i < |xs| :: RefOk(l.store, rank, owner, xs[i])) && TableOk(l)
    requires |cells| == |xs| && Written(l, rank, owner, xs, cells) && FreeRegion(l.image, base, |cells| + 1)
    ensures AllResolve(l.store, l.table, rank, owner, xs)
    ensures var l' := l.(image := l.image.(code := WithCells(l.image.code, base, cells + [Cells.EXIT])));
      TableOk(l') && Extends(l, l') && BodyAt(l', rank, owner, xs, base)
  {
    hide GoodStore, RefOk;
    var all := cells + [Cells.EXIT];
    var l' := l.(image := l.image.(code := WithCells(l.image.code, base, all)));
    WithCellsReads(l.image.code, base, all);
    assert Extends(l, l');
    forall i | 0 <= i < |xs|
      ensures ItemResolves(l.store, l.table, rank, owner, xs[i])
    {
      assert CellWritten(l, rank, owner, xs[i], cells[i]);
    }
    var tree := UnfoldAll(l.store, l.table, rank, owner, xs);
    forall i | 0 <= i < |xs|
      ensures CellSpells(l'.image, l'.copies, Vm.Cell(base, i), tree[i])
    {
      assert CellWritten(l, rank, owner, xs[i], cells[i]);
      assert Holds(l'.image.code, base, i, all[i]);
      WordSpellsExtends(l, l', cells[i], tree[i]);
    }
    assert Holds(l'.image.code, base, |cells|, all[|cells|]);
  }

  lemma BodyPlaced(l: Link, rank: Rank, owner: Cid, xs: seq<Item>, base: Word, addr: Word)
    requires GoodStore(l.store, rank) && owner in l.store && IsCode(l.store[owner].kind) && GoodBlob(l.store, rank, owner)
    requires Parse(l.store[owner].data) == Some(xs) && Resolves(l.store, l.table, rank, owner) && TableOk(l)
    requires AllResolve(l.store, l.table, rank, owner, xs) && BodyAt(l, rank, owner, xs, base) && FreeWrapper(l.image, addr)
    ensures var l' := l.(image := l.image.(words := l.image.words[addr := base]));
      TableOk(l') && Extends(l, l') && Spells(l'.image, l'.copies, addr, Unfold(l.store, l.table, rank, owner))
  {
    hide GoodStore, Parse;
    var l' := l.(image := l.image.(words := l.image.words[addr := base]));
    var tree := UnfoldAll(l.store, l.table, rank, owner, xs);
    assert Extends(l, l');
    forall i | 0 <= i < |tree|
      ensures CellSpells(l'.image, l'.copies, Vm.Cell(base, i), tree[i])
    {
      assert CellSpells(l.image, l.copies, Vm.Cell(base, i), tree[i]);
      WordSpellsExtends(l, l', l.image.code[Vm.Cell(base, i)], tree[i]);
    }
  }
}
