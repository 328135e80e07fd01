/** CID-based linking (src/loader.c): blobs from the database become cell streams in
    memory, each CID once. */
module Loader {
  import opened Words
  import opened Blob
  import opened Wrappers
  import opened Compiler
  import opened Linkage
  import opened Unfolding
  import opened Room
  import Cells
  import Vm

  /** hash_cid_binary before the reduction to 256 buckets. */
  function HashPrefix(cid: Cid, n: nat): nat
    requires n <= 8
  {
    if n == 0 then 0 else (HashPrefix(cid, n - 1) * 31 + cid[n - 1]) % 0x1_0000_0000
  }

  function Bucket(cid: Cid): (b: nat)
    ensures b < 256
  {
    HashPrefix(cid, 8) % 256
  }

  datatype Entry = Entry(cid: Cid, addr: Word)

  /** The address in a chain, searched from the head as the source does. */
  function Chain(entries: seq<Entry>, cid: Cid): Option<Word> {
    if entries == [] then None
    else if entries[0].cid == cid then Some(entries[0].addr)
    else Chain(entries[1..], cid)
  }

  /** The hash table from CIDs to addresses. */
  class CidCache {
    const buckets: array<seq<Entry>>
    ghost var known: map<Cid, Word>

    ghost predicate Valid()
      reads this, buckets
    {
      buckets.Length == 256 &&
      forall cid: Cid :: Chain(buckets[Bucket(cid)], cid) == if cid in known then Some(known[cid]) else None
    }

    constructor ()
      ensures Valid() && known == map[] && fresh(buckets)
    {
      buckets := new seq<Entry>[256](_ => []);
      known := map[];
    }

    method HashCid(cid: Cid) returns (b: nat)
      ensures b == Bucket(cid)
    {
      var hash: nat := 0;
      for i := 0 to 8
        invariant hash == HashPrefix(cid, i)
      {
        hash := (hash * 31 + cid[i]) % 0x1_0000_0000;
      }
      b := hash % 256;
    }

    method Put(cid: Cid, addr: Word)
      requires Valid()
      modifies this, buckets
      ensures Valid() && known == old(known)[cid := addr]
    {
      var b := HashCid(cid);
      var was := buckets[b];
      buckets[b] := [Entry(cid, addr)] + was;
      known := known[cid := addr];
      assert buckets[b][1..] == was;
    }

    method Get(cid: Cid) returns (addr: Option<Word>)
      requires Valid()
      ensures addr == if cid in known then Some(known[cid]) else None
    {
      var b := HashCid(cid);
      var entries := buckets[b];
      while entries != []
        invariant Chain(entries, cid) == Chain(buckets[Bucket(cid)], cid)
      {
        if entries[0].cid == cid {
          return Some(entries[0].addr);
        }
        entries := entries[1..];
      }
      addr := None;
    }
  }

  class LoaderState {
    const table: map<U16, Word>
    const cache: CidCache
    const space: Space
    var store: Store            // what the database holds
    var outOfMemory: bool
    ghost var order: seq<Cid>   // the CIDs linked so far, as they were finished

    ghost function View(): Link
      reads this, cache, space
    {
      Link(store, table, cache.known, space.copies, space.image)
    }

    ghost predicate Valid(rank: Rank)
      reads this, cache, cache.buckets, space
    {
      && cache.Valid()
      && GoodStore(store, rank)
      && Ok(View())
      && (forall c | c in cache.known :: Resolves(store, table, rank, c))
      && (forall c :: c in order <==> c in cache.known)
      && (forall i, j | 0 <= i < j < |order| :: order[i] != order[j])
      && (outOfMemory ==> NoRoom(store, space.image.prims))
    }

    /** Memory holds what was linked, and the one CID that is placed but not cached yet. */
    ghost predicate Tallied(pending: seq<Cid>)
      reads this, cache, space
    {
      outOfMemory || Counted(View(), order + pending)
    }

    constructor (store: Store, table: map<U16, Word>, prims: map<Word, U16>, ghost rank: Rank)
      requires GoodStore(store, rank)
      requires TableOk(Link(store, table, map[], map[], Vm.Image(map[], prims, map[])))
      ensures Valid(rank) && Tallied([]) && fresh(cache) && fresh(cache.buckets) && fresh(space)
      ensures View() == Link(store, table, map[], map[], Vm.Image(map[], prims, map[]))
      ensures !outOfMemory && order == []
    {
      this.store, this.table := store, table;
      cache := new CidCache();
      space := new Space(prims);
      outOfMemory, order := false, [];
    }

    lemma KnownStored(rank: Rank)
      requires Valid(rank)
      ensures forall c | c in cache.known :: c in store
    {
    }

    /** The database has grown since. */
    method Refresh(db: Store, ghost rank: Rank, ghost rank': Rank)
      requires Valid(rank) && Tallied([]) && Grown(store, db) && GoodStore(db, rank')
      requires forall c | c in cache.known :: Resolves(db, table, rank', c)
      modifies this`store
      ensures Valid(rank') && Tallied([]) && store == db && Extends(old(View()), View())
    {
      hide CodeAt, Parse, Denotes, Resolves, Ok, Extends, GoodStore, CidCache.Valid, NoRoom, Counted;
      ghost var before := View();
      if outOfMemory {
        NoRoomLater(store, db, space.image.prims);
      } else {
        assert order + [] == order;
        CountedLater(before, db, order);
      }
      store := db;
      StoreGrown(before, db);
    }

    method LinkCid(cid: Cid, ghost rank: Rank) returns (r: Option<Word>)
      requires Valid(rank) && Tallied([])
      modifies this`outOfMemory, this`order, space, cache, cache.buckets
      ensures Valid(rank) && Tallied([]) && Extends(old(View()), View())
      ensures old(order) <= order && (old(outOfMemory) ==> outOfMemory)
      ensures NewBelow(old(cache.known), cache.known, rank, RankOf(rank, cid) + 1)
      ensures r.Some? ==> Resolves(store, table, rank, cid) && cid in cache.known && r.value == cache.known[cid]
      ensures r.Some? ==> Spells(space.image, space.copies, r.value, Unfold(store, table, rank, cid))
      ensures r.None? ==> outOfMemory || !Resolves(store, table, rank, cid)
      decreases RankOf(rank, cid), 3
    {
      hide CodeAt, Parse, Denotes, Resolves, Ok, Extends, GoodStore, CidCache.Valid, Spells, Unfold, NoRoom, Counted;
      ghost var before := View();
      ExtendsItself(before);
      UnresolvedRecord(store, table, rank, cid);
      r := cache.Get(cid);
      if r.Some? {
        CachedUnfolds(View(), rank, cid);
        return;
      }
      if cid !in store {
        return None;
      }
      var record := store[cid];
      if IsCode(record.kind) {
        r := LinkCode(record.data, cid, rank);
      } else if record.kind == KIND_DATA {
        r := CopyRecord(record.data, cid, rank);
      } else {
        return None;
      }
      if r.Some? {
        ghost var after := View();
        Remember(cid, r.value, rank);
        ExtendsTransitive(before, after, View());
        CachedUnfolds(View(), rank, cid);
      }
    }

    /** Caching a result. */
    method Remember(cid: Cid, addr: Word, ghost rank: Rank)
      requires Valid(rank) && cid !in cache.known && Tallied([cid])
      requires Resolves(store, table, rank, cid) && Denotes(View(), cid, addr)
      modifies this`order, cache, cache.buckets
      ensures Valid(rank) && Tallied([]) && Extends(old(View()), View())
      ensures cache.known == old(cache.known)[cid := addr] && order == old(order) + [cid]
    {
      hide CodeAt, Parse, Denotes, Resolves, GoodStore, CidCache.Valid, Ok, Extends, NoRoom;
      ghost var before := View();
      cache.Put(cid, addr);
      order := order + [cid];
      assert order + [] == order;
      OkRemembered(before, cid, addr);
    }

    method CopyRecord(data: seq<Byte>, ghost cid: Cid, ghost rank: Rank) returns (r: Option<Word>)
      requires Valid(rank) && Tallied([]) && cid in store && store[cid] == Record(KIND_DATA, data) && cid !in cache.known
      modifies this`outOfMemory, space
      ensures Valid(rank) && Extends(old(View()), View())
      ensures old(outOfMemory) ==> outOfMemory
      ensures r.None? ==> outOfMemory
      ensures r.Some? ==> Denotes(View(), cid, r.value) && Tallied([cid])
    {
      hide CodeAt, Parse, Resolves, NoRoom, Counted, CidCache.Valid, GoodStore, Ok, Extends, FreeCopy;
      ghost var before := View();
      r := space.CopyData(data);
      if r.Some? {
        OneCopied(before, order, cid, r.value, data, outOfMemory);
        CopyInstalled(before, cid, r.value);
      } else {
        NoCopyLeft(before, order, outOfMemory);
        outOfMemory := true;
        ExtendsItself(before);
      }
    }

    method LinkCode(data: seq<Byte>, ghost owner: Cid, ghost rank: Rank) returns (r: Option<Word>)
      requires Valid(rank) && Tallied([])
      requires owner in store && IsCode(store[owner].kind) && store[owner].data == data
      requires owner !in cache.known
      modifies this`outOfMemory, this`order, space, cache, cache.buckets
      ensures Valid(rank) && Extends(old(View()), View())
      ensures Tallied(if r.Some? then [owner] else [])
      ensures old(order) <= order && (old(outOfMemory) ==> outOfMemory)
      ensures NewBelow(old(cache.known), cache.known, rank, RankOf(rank, owner))
      ensures owner !in cache.known
      ensures r.Some? ==> Resolves(store, table, rank, owner) && Denotes(View(), owner, r.value)
      ensures r.None? ==> outOfMemory || !Resolves(store, table, rank, owner)
      decreases RankOf(rank, owner), 2
    {
      hide Ok, CodeAt, Parse, Denotes, CellFor, CellsFor, ItemResolves, Resolves, Extends, GoodStore, CidCache.Valid;
      hide DecodeItem, NoRoom, Counted;
      GoodBlobOf(store, rank, owner);
      ghost var xs := Parse(data).value;
      ghost var before := View();
      ExtendsItself(before);
      var cells: seq<Word> := [];
      var ptr := 0;
      NoCells(before, xs);
      while ptr < |data|
        invariant 0 <= ptr <= |data|
        invariant Valid(rank) && Tallied([]) && Extends(before, View())
        invariant old(order) <= order && (old(outOfMemory) ==> outOfMemory)
        invariant NewBelow(old(cache.known), cache.known, rank, RankOf(rank, owner))
        invariant |cells| <= |xs| && Parse(data[ptr..]) == Some(xs[|cells|..])
        invariant CellsFor(View(), xs, cells)
        invariant forall i | 0 <= i < |cells| :: ItemResolves(store, table, rank, owner, xs[i])
        decreases |data| - ptr
      {
        ghost var n := |cells|;
        ghost var head := View();
        ParseHead(data[ptr..], xs[n..]);
        var isCid, idOrKind, payload, next := DecodeTagEx(data, ptr);
        assert data[ptr..][next - ptr..] == data[next..];
        assert xs[n..][1..] == xs[n + 1..];
        var cell := LinkItem(isCid, idOrKind, payload, xs[n], owner, rank);
        ExtendsTransitive(before, head, View());
        if cell.None? {
          if !ItemResolves(store, table, rank, owner, xs[n]) {
            UnresolvedItem(store, table, rank, owner, n);
          }
          return None;
        }
        CellsForMore(head, View(), xs, cells, cell.value);
        cells := cells + [cell.value];
        ptr := next;
      }
      assert data[ptr..] == [];
      ParseEmpty();
      ghost var tail := View();
      r := Install(cells, xs, owner, rank);
      ExtendsTransitive(before, tail, View());
      AllItemsResolve(store, table, rank, owner);
    }

    /** The switch on one decoded tag. */
    method LinkItem(isCid: bool, idOrKind: U16, payload: seq<Byte>, ghost x: Item, ghost owner: Cid, ghost rank: Rank)
      returns (cell: Option<Word>)
      requires Valid(rank) && Tallied([]) && RefOk(store, rank, owner, x)
      requires Describes(isCid, idOrKind, payload, x)
      modifies this`outOfMemory, this`order, space, cache, cache.buckets
      ensures Valid(rank) && Tallied([]) && Extends(old(View()), View())
      ensures old(order) <= order && (old(outOfMemory) ==> outOfMemory)
      ensures NewBelow(old(cache.known), cache.known, rank, RankOf(rank, owner))
      ensures cell.Some? ==> CellFor(View(), x) == cell && ItemResolves(store, table, rank, owner, x)
      ensures cell.None? ==> outOfMemory || !ItemResolves(store, table, rank, owner, x)
      decreases RankOf(rank, owner), 1
    {
      hide NoRoom, Counted, Spells, Unfold;
      if !isCid {
        if idOrKind == PRIM_LIT {
          var value := ReadLittleEndian(payload);
          cell := Some(Cells.EncodeLit(value));
        } else if idOrKind >= 256 || idOrKind !in table {
          cell := None;
        } else {
          cell := Some(Cells.EncodeXt(table[idOrKind]));
        }
      } else {
        var addr := LinkCid(payload, rank);
        if addr.None? {
          return None;
        }
        if idOrKind == KIND_WORD || idOrKind == KIND_PRIMITIVE {
          cell := Some(Cells.EncodeXt(addr.value));
        } else if idOrKind == KIND_QUOTATION {
          cell := Some(Cells.EncodeLit(Signed(addr.value)));
        } else if idOrKind == KIND_DATA {
          assert Denotes(View(), payload, addr.value);
          var value := ReadLittleEndian(space.copies[addr.value][..8]);
          cell := Some(Cells.EncodeLit(value));
        } else {
          cell := None;
        }
      }
    }

    /** Appending EXIT, moving the cells to their final place, and wrapping them. */
    method Install(cells: seq<Word>, ghost xs: seq<Item>, ghost owner: Cid, ghost rank: Rank) returns (r: Option<Word>)
      requires Valid(rank) && Tallied([]) && |cells| == |xs|
      requires owner in store && IsCode(store[owner].kind) && Parse(store[owner].data) == Some(xs) && owner !in cache.known
      requires CellsFor(View(), xs, cells)
      modifies this`outOfMemory, space
      ensures Valid(rank) && Extends(old(View()), View())
      ensures old(outOfMemory) ==> outOfMemory
      ensures r.None? ==> outOfMemory
      ensures r.Some? ==> Denotes(View(), owner, r.value) && Tallied([owner])
    {
      hide Ok, CodeAt, Resolves, CellsFor, FreeRegion, FreeWrapper, WithCells, Extends, NoRoom, Counted, CidCache.Valid, GoodStore, Parse,
        Denotes;
      ghost var v0 := View();
      var all := cells + [Cells.EXIT];
      ParseShort(store[owner].data, xs);
      var base := space.AllocCells(all);
      if base.None? {
        NoRegionLeft(v0, order, owner, |all|, outOfMemory);
        outOfMemory := true;
        ExtendsItself(v0);
        return None;
      }
      ghost var v1 := View();
      CodeInstalled(v0, base.value, cells, xs);
      r := space.CreateDocolWrapper(base.value);
      if r.None? {
        NoWrapperLeft(v0, v1, order, owner, outOfMemory);
        outOfMemory := true;
        return None;
      }
      WrapperInstalled(v1, r.value, base.value, owner, xs);
      OneInstalled(v0, order, owner, base.value, all, r.value, outOfMemory);
      ExtendsTransitive(v0, v1, View());
    }
  }

  lemma {:induction false} ParseShort(bs: seq<Byte>, xs: seq<Item>)
    requires Parse(bs) == Some(xs)
    ensures |xs| <= |bs|
    decreases |bs|
  {
    if bs != [] {
      ParseHead(bs, xs);
      ParseShort(bs[DecodeItem(bs).value.1..], xs[1..]);
    }
  }

  /** What a cached address denotes is the code written out in full. */
  lemma CachedUnfolds(l: Link, rank: Rank, cid: Cid)
    requires Ok(l) && GoodStore(l.store, rank) && cid in l.cache && Resolves(l.store, l.table, rank, cid)
    ensures Spells(l.image, l.copies, l.cache[cid], Unfold(l.store, l.table, rank, cid))
  {
    DenotesUnfolds(l, rank, cid, l.cache[cid]);
  }

  lemma CopyInstalled(l: Link, cid: Cid, addr: Word)
    requires Ok(l) && cid in l.store && l.store[cid].kind == KIND_DATA && FreeCopy(l.copies, addr)
    ensures var l' := l.(copies := l.copies[addr := l.store[cid].data]);
      Ok(l') && Extends(l, l') && Denotes(l', cid, addr)
  {
    OkExtends(l, l.(copies := l.copies[addr := l.store[cid].data]));
  }

  lemma StoreGrown(l: Link, db: Store)
    requires Ok(l) && Grown(l.store, db)
    ensures Ok(l.(store := db)) && Extends(l, l.(store := db))
  {
    OkExtends(l, l.(store := db));
  }

  lemma CountedLater(l: Link, db: Store, done: seq<Cid>)
    requires Counted(l, done) && Grown(l.store, db)
    ensures Counted(l.(store := db), done)
  {
    WeightLater(l.store, db, done);
  }

  // ----- How much has been placed -----

  ghost predicate StillCounted(l: Link, done: seq<Cid>, out: bool) {
    if out then NoRoom(l.store, l.image.prims) else Counted(l, done + [])
  }

  lemma OneCopied(l: Link, done: seq<Cid>, cid: Cid, addr: Word, data: seq<Byte>, out: bool)
    requires StillCounted(l, done, out) && cid in l.store && cid !in done
    ensures out || Counted(l.(copies := l.copies[addr := data]), done + [cid])
  {
    OneMore(l.copies, addr, data);
    assert done + [] == done;
    assert (done + [cid])[..|done|] == done;
  }

  lemma OneInstalled(l: Link, done: seq<Cid>, cid: Cid, base: Word, cells: seq<Word>, addr: Word, out: bool)
    requires StillCounted(l, done, out) && cid in l.store && cid !in done && |cells| <= |l.store[cid].data| + 1
    ensures var image := l.image.(code := WithCells(l.image.code, base, cells), words := l.image.words[addr := base]);
      out || Counted(l.(image := image), done + [cid])
  {
    WithCellsCount(l.image.code, base, cells);
    OneMore(l.image.words, addr, base);
    assert done + [] == done;
    assert (done + [cid])[..|done|] == done;
  }

  lemma NoRegionLeft(l: Link, done: seq<Cid>, cid: Cid, n: nat, out: bool)
    requires StillCounted(l, done, out) && cid in l.store && 0 < n <= |l.store[cid].data| + 1
    requires forall base: Word :: !FreeRegion(l.image, base, n)
    ensures NoRoom(l.store, l.image.prims)
  {
    assert done + [] == done;
    forall most: nat
      ensures !Roomy(l.store, l.image.prims, most)
    {
      if !out && Roomy(l.store, l.image.prims, most) {
        RoomLeft(l, done, most, n);
      }
    }
  }

  lemma NoWrapperLeft(l: Link, l': Link, done: seq<Cid>, cid: Cid, out: bool)
    requires StillCounted(l, done, out)
    requires l' == l.(image := l.image.(code := l'.image.code)) && forall addr: Word :: !FreeWrapper(l'.image, addr)
    ensures NoRoom(l.store, l.image.prims)
  {
    assert done + [] == done;
    forall most: nat
      ensures !Roomy(l.store, l.image.prims, most)
    {
      if !out && Roomy(l.store, l.image.prims, most) {
        RoomLeft(l, done, most, 1);
        var addr: Word :| FreeWrapper(l.image, addr);
        assert FreeWrapper(l'.image, addr);
      }
    }
  }

  lemma NoCopyLeft(l: Link, done: seq<Cid>, out: bool)
    requires StillCounted(l, done, out) && forall addr: Word :: !FreeCopy(l.copies, addr)
    ensures NoRoom(l.store, l.image.prims)
  {
    assert done + [] == done;
    forall most: nat
      ensures !Roomy(l.store, l.image.prims, most)
    {
      if !out && Roomy(l.store, l.image.prims, most) {
        RoomLeft(l, done, most, 1);
      }
    }
  }

  /** The cells built so far are those of the items read so far. */
  ghost predicate CellsFor(l: Link, xs: seq<Item>, cells: seq<Word>) {
    |cells| <= |xs| && forall i | 0 <= i < |cells| :: CellFor(l, xs[i]) == Some(cells[i])
  }

  lemma NoCells(l: Link, xs: seq<Item>)
    ensures CellsFor(l, xs, [])
  {
  }

  lemma CellsForMore(l: Link, l': Link, xs: seq<Item>, cells: seq<Word>, cell: Word)
    requires CellsFor(l, xs, cells) && Extends(l, l')
    requires |cells| < |xs| && CellFor(l', xs[|cells|]) == Some(cell)
    ensures CellsFor(l', xs, cells + [cell])
  {
    forall i | 0 <= i < |cells|
      ensures CellFor(l', xs[i]) == Some(cells[i])
    {
      CellForExtends(l, l', xs[i]);
    }
  }

  lemma GoodBlobOf(store: Store, rank: Rank, owner: Cid)
    requires GoodStore(store, rank) && owner in store && IsCode(store[owner].kind)
    ensures GoodBlob(store, rank, owner)
  {
  }

  lemma UnresolvedRecord(store: Store, table: map<U16, Word>, rank: Rank, cid: Cid)
    requires GoodStore(store, rank)
    ensures cid !in store ==> !Resolves(store, table, rank, cid)
    ensures cid in store && !IsCode(store[cid].kind) ==>
      (Resolves(store, table, rank, cid) <==> store[cid].kind == KIND_DATA)
  {
  }

  lemma OkRemembered(l: Link, cid: Cid, addr: Word)
    requires Ok(l) && cid !in l.cache && Denotes(l, cid, addr)
    ensures var l' := l.(cache := l.cache[cid := addr]); Ok(l') && Extends(l, l')
  {
    var l' := l.(cache := l.cache[cid := addr]);
    DenotesExtends(l, l', cid, addr);
    OkExtends(l, l');
  }

  lemma UnresolvedItem(store: Store, table: map<U16, Word>, rank: Rank, owner: Cid, n: nat)
    requires GoodStore(store, rank) && owner in store && IsCode(store[owner].kind) && GoodBlob(store, rank, owner)
    requires n < |Parse(store[owner].data).value|
    requires !ItemResolves(store, table, rank, owner, Parse(store[owner].data).value[n])
    ensures !Resolves(store, table, rank, owner)
  {
  }

  lemma AllItemsResolve(store: Store, table: map<U16, Word>, rank: Rank, owner: Cid)
    requires GoodStore(store, rank) && owner in store && IsCode(store[owner].kind) && GoodBlob(store, rank, owner)
    requires forall i | 0 <= i < |Parse(store[owner].data).value| ::
      ItemResolves(store, table, rank, owner, Parse(store[owner].data).value[i])
    ensures Resolves(store, table, rank, owner)
  {
  }

  /** The out-parameters of the decoder against the item they describe. */
  ghost predicate Describes(isCid: bool, idOrKind: U16, payload: seq<Byte>, x: Item) {
    match x
    case Ref(kind, cid) => isCid && idOrKind == kind && payload == cid
    case Op(id) => !isCid && idOrKind == id && id != PRIM_LIT
    case Inline(v) => !isCid && idOrKind == PRIM_LIT && Carries(payload, v)
  }

  /** A cell stream written to a free region stands there, and disturbs nothing. */
  lemma CodeInstalled(l: Link, base: Word, cells: seq<Word>, xs: seq<Item>)
    requires Ok(l) && |cells| == |xs| && FreeRegion(l.image, base, |cells| + 1)
    requires CellsFor(l, xs, cells)
    ensures var l' := l.(image := l.image.(code := WithCells(l.image.code, base, cells + [Cells.EXIT])));
      Ok(l') && Extends(l, l') && CodeAt(l', base, xs)
  {
    var all := cells + [Cells.EXIT];
    var l' := l.(image := l.image.(code := WithCells(l.image.code, base, all)));
    WithCellsReads(l.image.code, base, all);
    OkExtends(l, l');
    forall i | 0 <= i < |xs|
      ensures HasCell(l', base, i, xs[i])
    {
      CellForExtends(l, l', xs[i]);
      assert Holds(l'.image.code, base, i, all[i]);
    }
    assert Holds(l'.image.code, base, |cells|, all[|cells|]);
  }

  lemma WrapperInstalled(l: Link, addr: Word, base: Word, owner: Cid, xs: seq<Item>)
    requires owner in l.store && IsCode(l.store[owner].kind) && Parse(l.store[owner].data) == Some(xs)
    requires Ok(l) && CodeAt(l, base, xs) && FreeWrapper(l.image, addr)
    ensures var l' := l.(image := l.image.(words := l.image.words[addr := base]));
      Ok(l') && Extends(l, l') && Denotes(l', owner, addr)
  {
    var l' := l.(image := l.image.(words := l.image.words[addr := base]));
    OkExtends(l, l');
    CodeAtExtends(l, l', base, xs);
  }

  /** Entries added to the cache all have a rank below the bound. */
  ghost predicate NewBelow(old_: map<Cid, Word>, new_: map<Cid, Word>, rank: Rank, bound: nat) {
    forall c | c in new_ && c !in old_ :: RankOf(rank, c) < bound
  }

  lemma ParseEmpty()
    ensures Parse([]) == Some([])
  {
  }

  lemma ParseHead(bs: seq<Byte>, xs: seq<Item>)
    requires bs != [] && Parse(bs) == Some(xs)
    ensures xs != [] && DecodeItem(bs).Some? && xs[0] == DecodeItem(bs).value.0
    ensures Parse(bs[DecodeItem(bs).value.1..]) == Some(xs[1..])
  {
  }
}
