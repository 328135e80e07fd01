/** Memory for linked code: which addresses are free, and when there is always one left. */
module Room {
  import opened Words
  import opened Blob
  import opened Wrappers
  import opened Compiler
  import opened Linkage
  import Vm

  /** No address of a region is in use, and all of it is user space. */
  predicate FreeRegion(image: Vm.Image, base: Word, n: nat) {
    && 0 < base && base % 8 == 0 && base + 8 * n < USER_SPACE
    && forall i | 0 <= i < n :: Vm.Cell(base, i) !in image.code
  }

  predicate FreeWrapper(image: Vm.Image, addr: Word) {
    0 < addr < USER_SPACE && addr % 4 == 0 && addr !in image.prims && addr !in image.words
  }

  predicate FreeCopy(copies: map<Word, seq<Byte>>, addr: Word) {
    addr != 0 && addr !in copies
  }

  /** There is room for everything a database of blobs of at most that many bytes can need:
      cells for every blob, the wrappers, and the two cells that call the word to be run. */
  predicate Roomy(store: Store, prims: map<Word, U16>, most: nat) {
    && (forall c | c in store :: |store[c].data| <= most)
    && 8 + 8 * ((most + 2) * (|store| * (most + 1) + 1)) < USER_SPACE
    && 4 + 4 * (|prims| + |store| + 1) <= USER_SPACE
  }

  /** A thousand blobs of sixteen kilobytes have room. */
  lemma ThousandBlobsFit(store: Store, prims: map<Word, U16>)
    requires |store| <= 1000 && |prims| <= 0x1_0000 && forall c | c in store :: |store[c].data| <= 0x4000
    ensures Roomy(store, prims, 0x4000) && !NoRoom(store, prims)
  {
    assert Roomy(store, prims, 0x4000);
  }

  ghost predicate NoRoom(store: Store, prims: map<Word, U16>) {
    forall most: nat :: !Roomy(store, prims, most)
  }

  /** A database that grows does not become roomier. */
  lemma NoRoomLater(store: Store, store': Store, prims: map<Word, U16>)
    requires NoRoom(store, prims) && Grown(store, store')
    ensures NoRoom(store', prims)
  {
    assert store.Keys <= store'.Keys;
    Fewer(store.Keys, store'.Keys);
    forall most: nat
      ensures !Roomy(store', prims, most)
    {
      assert !Roomy(store, prims, most);
      if forall c | c in store' :: |store'[c].data| <= most {
        SpaceLater(|store|, |store'|, most);
        forall c | c in store
          ensures |store[c].data| <= most
        {
          assert store'[c] == store[c];
        }
      }
    }
  }

  lemma SpaceLater(n: nat, n': nat, most: nat)
    requires n <= n'
    ensures (most + 2) * (n * (most + 1) + 1) <= (most + 2) * (n' * (most + 1) + 1)
  {
    Times(most + 1, n, n');
    Times(most + 2, n * (most + 1) + 1, n' * (most + 1) + 1);
  }

  lemma Times(a: nat, x: nat, y: nat)
    requires x <= y
    ensures a * x <= a * y && x * a <= y * a
  {
    if a > 0 {
      MulMonotone(a, x, y);
    }
  }

  lemma {:induction false} Fewer<T>(s: set<T>, t: set<T>)
    requires s <= t
    ensures |s| <= |t|
  {
    if s != {} {
      var x :| x in s;
      Fewer(s - {x}, t - {x});
    }
  }

  // ----- A pigeonhole -----

  ghost predicate BlockUsed(s: set<nat>, start: nat, size: nat, j: nat) {
    exists x :: x in s && InBlock(start, size, j, x)
  }

  predicate InBlock(start: nat, size: nat, j: nat, x: nat) {
    start + size * j <= x < start + size * j + size
  }

  lemma {:induction false} BlocksUsed(s: set<nat>, start: nat, size: nat, n: nat)
    requires forall j: nat | j < n :: BlockUsed(s, start, size, j)
    ensures n <= |s|
    decreases n
  {
    if n > 0 {
      assert BlockUsed(s, start, size, n - 1);
      var x :| x in s && InBlock(start, size, n - 1, x);
      forall j: nat | j < n - 1
        ensures BlockUsed(s - {x}, start, size, j)
      {
        assert BlockUsed(s, start, size, j);
        var y :| y in s && InBlock(start, size, j, y);
        Times(size, j + 1, n - 1);
        assert size * (j + 1) == size * j + size;
        assert y in s - {x};
      }
      BlocksUsed(s - {x}, start, size, n - 1);
    }
  }

  /** Among one block more than there are used places, one is free. */
  lemma FreeBlock(s: set<nat>, start: nat, size: nat) returns (j: nat)
    ensures j <= |s| && !BlockUsed(s, start, size, j)
  {
    if forall j: nat | j < |s| + 1 :: BlockUsed(s, start, size, j) {
      BlocksUsed(s, start, size, |s| + 1);
    }
    j :| j < |s| + 1 && !BlockUsed(s, start, size, j);
  }

  lemma InBlockAt(n: nat, j: nat, i: nat)
    requires i < n
    ensures InBlock(8, 8 * n, j, 8 + 8 * n * j + 8 * i)
  {
  }

  lemma BlockEnd(n: nat, j: nat, bound: nat)
    requires j <= bound && 8 + 8 * (n * (bound + 1)) < USER_SPACE
    ensures 8 + 8 * n * j + 8 * n < USER_SPACE && (8 + 8 * n * j) % 8 == 0
  {
    Times(n, j + 1, bound + 1);
    assert 8 * n * j + 8 * n == 8 * (n * (j + 1));
    assert 8 + 8 * n * j == 8 * (1 + n * j);
  }

  lemma RegionLeft(image: Vm.Image, n: nat, bound: nat)
    requires n > 0 && |image.code| <= bound && 8 + 8 * (n * (bound + 1)) < USER_SPACE
    ensures exists base: Word :: FreeRegion(image, base, n)
  {
    hide InBlock;
    var used: set<nat> := image.code.Keys;
    assert |image.code| == |image.code.Keys|;
    var j := FreeBlock(used, 8, 8 * n);
    BlockEnd(n, j, bound);
    var base := 8 + 8 * n * j;
    forall i | 0 <= i < n
      ensures Vm.Cell(base, i) !in image.code
    {
      InBlockAt(n, j, i);
      assert Vm.Cell(base, i) == base + 8 * i;
    }
    assert FreeRegion(image, base, n);
  }

  /** An aligned address outside the set, not further than the set has elements. */
  lemma AlignedLeft(used: set<nat>) returns (addr: nat)
    ensures addr !in used && addr % 4 == 0 && 0 < addr <= 4 + 4 * |used|
  {
    hide InBlock;
    var j := FreeBlock(used, 4, 4);
    addr := 4 + 4 * j;
    InFours(j);
  }

  lemma WrapperLeft(image: Vm.Image, bound: nat)
    requires |image.words| <= bound && 4 + 4 * (|image.prims| + bound + 1) <= USER_SPACE
    ensures exists addr: Word :: FreeWrapper(image, addr)
  {
    assert |image.words| == |image.words.Keys| && |image.prims| == |image.prims.Keys|;
    UnionBound(image.words.Keys, image.prims.Keys);
    var addr := AlignedLeft(image.words.Keys + image.prims.Keys);
    assert FreeWrapper(image, addr);
  }

  lemma InFours(j: nat)
    ensures InBlock(4, 4, j, 4 + 4 * j)
  {
  }

  lemma UnionBound<T>(s: set<T>, t: set<T>)
    ensures |s + t| <= |s| + |t|
  {
    assert |s + t| == |s| + |t - s| by { assert s + t == s + (t - s); }
    Fewer(t - s, t);
  }

  lemma CopyLeft(copies: map<Word, seq<Byte>>, bound: nat)
    requires |copies| <= bound && bound + 2 <= TWO_64
    ensures exists addr: Word :: FreeCopy(copies, addr)
  {
    assert |copies| == |copies.Keys|;
    var used: set<nat> := copies.Keys;
    var j := FreeBlock(used, 1, 1);
    assert InBlock(1, 1, j, 1 + j);
    assert FreeCopy(copies, 1 + j);
  }

  // ----- What has been placed -----

  /** Bytes and an EXIT for each. */
  function Weight(store: Store, done: seq<Cid>): nat {
    if done == [] then 0
    else
      var c := done[|done| - 1];
      Weight(store, done[..|done| - 1]) + (if c in store then |store[c].data| else 0) + 1
  }

  /** Memory holds no more than what these CIDs need, each counted once. */
  ghost predicate Counted(l: Link, done: seq<Cid>) {
    && (forall i | 0 <= i < |done| :: done[i] in l.store)
    && (forall i, j | 0 <= i < j < |done| :: done[i] != done[j])
    && |l.image.code| <= Weight(l.store, done) && |l.image.words| <= |done| && |l.copies| <= |done|
  }

  lemma {:induction false} WeightBound(store: Store, done: seq<Cid>, most: nat)
    requires forall c | c in store :: |store[c].data| <= most
    ensures Weight(store, done) <= |done| * (most + 1)
  {
    if done != [] {
      var n := |done| - 1;
      WeightBound(store, done[..n], most);
      assert (n + 1) * (most + 1) == n * (most + 1) + (most + 1);
    }
  }

  lemma {:induction false} DoneBound(done: seq<Cid>, s: set<Cid>)
    requires forall i | 0 <= i < |done| :: done[i] in s
    requires forall i, j | 0 <= i < j < |done| :: done[i] != done[j]
    ensures |done| <= |s|
  {
    if done != [] {
      var n := |done| - 1;
      DoneBound(done[..n], s - {done[n]});
    }
  }

  lemma {:induction false} WeightLater(store: Store, store': Store, done: seq<Cid>)
    requires Grown(store, store') && forall i | 0 <= i < |done| :: done[i] in store
    ensures Weight(store', done) == Weight(store, done)
  {
    if done != [] {
      WeightLater(store, store', done[..|done| - 1]);
    }
  }

  /** A roomy database leaves room for the next blob's cells, its wrapper and its copy. */
  lemma RoomLeft(l: Link, done: seq<Cid>, most: nat, n: nat)
    requires Counted(l, done) && Roomy(l.store, l.image.prims, most) && 0 < n <= most + 2
    ensures exists base: Word :: FreeRegion(l.image, base, n)
    ensures exists addr: Word :: FreeWrapper(l.image, addr)
    ensures exists addr: Word :: FreeCopy(l.copies, addr)
  {
    DoneBound(done, l.store.Keys);
    WeightBound(l.store, done, most);
    var bound := |l.store| * (most + 1);
    Times(most + 1, |done|, |l.store|);
    Times(bound + 1, n, most + 2);
    RegionLeft(l.image, n, bound);
    WrapperLeft(l.image, |l.store|);
    CopyLeft(l.copies, |l.store|);
  }

  // ----- Memory -----

  /** The loader's allocations: any free address may be returned, and none only when none is left. */
  class Space {
    var image: Vm.Image
    var copies: map<Word, seq<Byte>>

    constructor (prims: map<Word, U16>)
      ensures image == Vm.Image(map[], prims, map[]) && copies == map[]
    {
      image, copies := Vm.Image(map[], prims, map[]), map[];
    }

    /** malloc for a finished cell stream. */
    method AllocCells(cells: seq<Word>) returns (r: Option<Word>)
      modifies this`image
      ensures r.None? ==> image == old(image) && forall base: Word :: !FreeRegion(image, base, |cells|)
      ensures r.Some? ==>
        && FreeRegion(old(image), r.value, |cells|)
        && image == old(image).(code := WithCells(old(image).code, r.value, cells))
    {
      if base: Word :| FreeRegion(image, base, |cells|) {
        image := image.(code := WithCells(image.code, base, cells));
        r := Some(base);
      } else {
        r := None;
      }
    }

    /** A DOCOL wrapper for a cell stream, in memory of its own. */
    method CreateDocolWrapper(cells: Word) returns (r: Option<Word>)
      modifies this`image
      ensures r.None? ==> image == old(image) && forall addr: Word :: !FreeWrapper(image, addr)
      ensures r.Some? ==>
        FreeWrapper(old(image), r.value) && image == old(image).(words := old(image).words[r.value := cells])
    {
      if addr: Word :| FreeWrapper(image, addr) {
        image := image.(words := image.words[addr := cells]);
        r := Some(addr);
      } else {
        r := None;
      }
    }

    /** A data blob of its own. */
    method CopyData(data: seq<Byte>) returns (r: Option<Word>)
      modifies this`copies
      ensures r.None? ==> copies == old(copies) && forall addr: Word :: !FreeCopy(copies, addr)
      ensures r.Some? ==> FreeCopy(old(copies), r.value) && copies == old(copies)[r.value := data]
    {
      if addr: Word :| FreeCopy(copies, addr) {
        copies := copies[addr := data];
        r := Some(addr);
      } else {
        r := None;
      }
    }
  }

  /** Code memory with a cell stream written at an address. */
  function WithCells(code: map<Word, Word>, base: Word, cells: seq<Word>): map<Word, Word>
    decreases cells
  {
    if cells == [] then code
    else WithCells(code, base, cells[..|cells| - 1])[Vm.Cell(base, |cells| - 1) := cells[|cells| - 1]]
  }

  predicate Holds(code: map<Word, Word>, base: Word, i: int, cell: Word) {
    Vm.Cell(base, i) in code && code[Vm.Cell(base, i)] == cell
  }

  lemma {:induction false} WithCellsReads(code: map<Word, Word>, base: Word, cells: seq<Word>)
    requires base + 8 * |cells| < USER_SPACE
    ensures forall i | 0 <= i < |cells| :: Holds(WithCells(code, base, cells), base, i, cells[i])
    ensures forall a | a in code && (forall i | 0 <= i < |cells| :: a != Vm.Cell(base, i)) ::
      a in WithCells(code, base, cells) && WithCells(code, base, cells)[a] == code[a]
    decreases cells
  {
    if cells != [] {
      var n := |cells| - 1;
      var code' := WithCells(code, base, cells[..n]);
      WithCellsReads(code, base, cells[..n]);
      forall i | 0 <= i < |cells|
        ensures Holds(WithCells(code, base, cells), base, i, cells[i])
      {
        if i < n {
          assert Holds(code', base, i, cells[..n][i]);
          assert Vm.Cell(base, i) != Vm.Cell(base, n);
        }
      }
    }
  }

  lemma {:induction false} WithCellsCount(code: map<Word, Word>, base: Word, cells: seq<Word>)
    ensures |WithCells(code, base, cells)| <= |code| + |cells|
    decreases cells
  {
    if cells != [] {
      var n := |cells| - 1;
      WithCellsCount(code, base, cells[..n]);
      OneMore(WithCells(code, base, cells[..n]), Vm.Cell(base, n), cells[n]);
    }
  }

  lemma OneMore<T>(m: map<Word, T>, a: Word, x: T)
    ensures |m[a := x]| <= |m| + 1
  {
    assert m[a := x].Keys == m.Keys + {a};
    assert |m[a := x]| == |m[a := x].Keys| && |m| == |m.Keys|;
  }
}
