/** The pooled table allocator of libhamt (src/hamt/cache.c:52-79, 109-177): tables of one
    size carved from chunks, and a free list threaded through the freed tables. Addresses
    count rows; memory shows the first word of each row. */
module TablePool {
  import opened Words

  /** A chunk's buffer: size rows from base on. */
  datatype Chunk = Chunk(base: nat, size: nat)

  /** No row belongs to both chunks. */
  predicate Disjoint(c: Chunk, d: Chunk) {
    c.base + c.size <= d.base || d.base + d.size <= c.base
  }

  /** The allocator behind the pool: blocks in no particular order that never overlap and
      never start at 0. */
  class Backing {
    var blocks: seq<Chunk>

    constructor ()
      ensures blocks == []
    {
      blocks := [];
    }

    method Malloc(size: nat) returns (base: nat)
      modifies this
      ensures base > 0 && blocks == old(blocks) + [Chunk(base, size)]
      ensures forall i | 0 <= i < |old(blocks)| :: Disjoint(old(blocks)[i], Chunk(base, size))
    {
      BlockLeft(blocks, size);
      base :| base > 0 && Outside(blocks, Chunk(base, size));
      blocks := blocks + [Chunk(base, size)];
    }
  }

  predicate Outside(blocks: seq<Chunk>, c: Chunk) {
    forall i | 0 <= i < |blocks| :: Disjoint(blocks[i], c)
  }

  lemma {:induction false} BlockLeft(blocks: seq<Chunk>, size: nat)
    ensures exists base :: base > 0 && Outside(blocks, Chunk(base, size))
  {
    var base := 1 + End(blocks);
    EndIsLast(blocks);
    assert Outside(blocks, Chunk(base, size));
  }

  function End(blocks: seq<Chunk>): nat {
    if blocks == [] then 0
    else
      var last, before := blocks[|blocks| - 1], End(blocks[..|blocks| - 1]);
      if last.base + last.size > before then last.base + last.size else before
  }

  lemma {:induction false} EndIsLast(blocks: seq<Chunk>)
    ensures forall i | 0 <= i < |blocks| :: blocks[i].base + blocks[i].size <= End(blocks)
  {
    if blocks != [] {
      EndIsLast(blocks[..|blocks| - 1]);
    }
  }

  /** No row belongs to both tables. */
  predicate Apart(p: nat, q: nat, rows: nat) {
    p + rows <= q || q + rows <= p
  }

  predicate Carved(c: Chunk, limit: nat, rows: nat, p: nat)
    requires rows > 0
  {
    c.base <= p && (p - c.base) % rows == 0 && p + rows <= c.base + limit
  }

  /** What has been carved from chunk i: all of an older chunk, and the newest up to the mark. */
  function Limit(chunks: seq<Chunk>, bufIx: nat, i: nat): nat
    requires i < |chunks|
  {
    if i == 0 then bufIx else chunks[i].size
  }

  ghost predicate CarvedIn(chunks: seq<Chunk>, bufIx: nat, rows: nat, p: nat, i: nat)
    requires rows > 0
  {
    i < |chunks| && Carved(chunks[i], Limit(chunks, bufIx, i), rows, p)
  }

  ghost predicate IsTable(chunks: seq<Chunk>, bufIx: nat, rows: nat, p: nat)
    requires rows > 0
  {
    exists i: nat :: CarvedIn(chunks, bufIx, rows, p, i)
  }

  ghost predicate GoodChunks(chunks: seq<Chunk>, bufIx: nat, rows: nat, blocks: seq<Chunk>)
    requires rows > 0
  {
    && chunks != [] && bufIx % rows == 0 && bufIx <= chunks[0].size
    && (forall i | 0 <= i < |chunks| ::
      chunks[i].base > 0 && chunks[i].size > 0 && chunks[i].size % rows == 0 && chunks[i] in blocks)
    && forall i, j | 0 <= i < j < |chunks| :: Disjoint(chunks[i], chunks[j])
  }

  /** Distinct tables never share a row. */
  lemma TablesApart(chunks: seq<Chunk>, bufIx: nat, rows: nat, blocks: seq<Chunk>, p: nat, q: nat)
    requires rows > 0 && GoodChunks(chunks, bufIx, rows, blocks) && p != q
    requires IsTable(chunks, bufIx, rows, p) && IsTable(chunks, bufIx, rows, q)
    ensures Apart(p, q, rows)
  {
    hide Carved, CarvedIn, GoodChunks;
    var i: nat :| CarvedIn(chunks, bufIx, rows, p, i);
    var j: nat :| CarvedIn(chunks, bufIx, rows, q, j);
    CarvedBounds(chunks, bufIx, rows, blocks, p, i);
    CarvedBounds(chunks, bufIx, rows, blocks, q, j);
    if i == j {
      StepsApart(p - chunks[i].base, q - chunks[i].base, rows);
    } else {
      ChunksApart(chunks, bufIx, rows, blocks, i, j);
    }
  }

  lemma ChunksApart(chunks: seq<Chunk>, bufIx: nat, rows: nat, blocks: seq<Chunk>, i: nat, j: nat)
    requires rows > 0 && GoodChunks(chunks, bufIx, rows, blocks) && i < |chunks| && j < |chunks| && i != j
    ensures chunks[i].base + chunks[i].size <= chunks[j].base || chunks[j].base + chunks[j].size <= chunks[i].base
  {
  }

  lemma CarvedBounds(chunks: seq<Chunk>, bufIx: nat, rows: nat, blocks: seq<Chunk>, p: nat, i: nat)
    requires rows > 0 && GoodChunks(chunks, bufIx, rows, blocks) && CarvedIn(chunks, bufIx, rows, p, i)
    ensures i < |chunks| && 0 < chunks[i].base <= p && p + rows <= chunks[i].base + chunks[i].size && (p - chunks[i].base) % rows == 0
  {
  }

  lemma StepsApart(a: nat, b: nat, rows: nat)
    requires rows > 0 && a % rows == 0 && b % rows == 0 && a != b
    ensures a + rows <= b || b + rows <= a
  {
    var m, n := a / rows, b / rows;
    assert a == rows * m && b == rows * n;
    if m < n {
      MulMonotone(rows, m + 1, n);
      assert rows * (m + 1) == a + rows;
    } else {
      MulMonotone(rows, n + 1, m);
      assert rows * (n + 1) == b + rows;
    }
  }

  predicate Inside(c: Chunk, p: nat, rows: nat) {
    c.base <= p && p + rows <= c.base + c.size
  }

  predicate Touches(c: Chunk, p: nat, rows: nat) {
    c.base < p + rows && p < c.base + c.size
  }

  /** Every table lies wholly inside one chunk, and touches no other. */
  lemma TableInChunk(chunks: seq<Chunk>, bufIx: nat, rows: nat, blocks: seq<Chunk>, p: nat)
    requires rows > 0 && GoodChunks(chunks, bufIx, rows, blocks) && IsTable(chunks, bufIx, rows, p)
    ensures exists i: nat :: i < |chunks| && Inside(chunks[i], p, rows)
    ensures forall i | 0 <= i < |chunks| && Touches(chunks[i], p, rows) :: Inside(chunks[i], p, rows)
  {
    hide Carved, CarvedIn, GoodChunks;
    var j: nat :| CarvedIn(chunks, bufIx, rows, p, j);
    CarvedBounds(chunks, bufIx, rows, blocks, p, j);
    assert Inside(chunks[j], p, rows);
    forall i | 0 <= i < |chunks| && Touches(chunks[i], p, rows)
      ensures i == j
    {
      if i != j {
        ChunksApart(chunks, bufIx, rows, blocks, i, j);
      }
    }
  }

  // ----- Alloc and free -----

  /** The links in the freed tables run through the free list in order. */
  ghost predicate Threaded(memory: map<nat, nat>, fl: nat, free: seq<nat>) {
    && fl == Head(free)
    && forall i | 0 <= i < |free| :: free[i] in memory && memory[free[i]] == Head(free[i + 1..])
  }

  function Head(free: seq<nat>): nat {
    if free == [] then 0 else free[0]
  }

  ghost predicate NoneTwice(free: seq<nat>) {
    forall i, j | 0 <= i < j < |free| :: free[i] != free[j]
  }

  class Pool {
    const backing: Backing
    const rows: nat
    var chunks: seq<Chunk>     // newest first
    var chunkCount: nat
    var size: nat              // tables carved so far
    var bufIx: nat             // high-water mark in the newest chunk
    var fl: nat                // head of the free list
    var memory: map<nat, nat>
    ghost var live: set<nat>
    ghost var free: seq<nat>

    /** Every table carved is either live or on the free list, and only once. */
    ghost predicate Valid()
      reads this, backing
    {
      && rows > 0 && GoodChunks(chunks, bufIx, rows, backing.blocks) && chunkCount == |chunks|
      && Threaded(memory, fl, free) && NoneTwice(free) && (forall p | p in free :: p !in live)
      && (forall p: nat :: IsTable(chunks, bufIx, rows, p) <==> p in live || p in free)
      && size == |live| + |free|
    }

    /** table_allocator_create. */
    constructor (backing: Backing, initialSize: nat, rows: nat)
      requires initialSize > 0 && rows > 0
      modifies backing
      ensures Valid() && this.backing == backing && this.rows == rows && live == {} && free == [] && size == 0
    {
      this.backing, this.rows := backing, rows;
      var buf := backing.Malloc(initialSize * rows);
      chunks, chunkCount := [Chunk(buf, initialSize * rows)], 1;
      size, bufIx, fl, memory := 0, 0, 0, map[];
      live, free := {}, [];
      new;
      WholeTables(initialSize, rows);
      FreshChunkEmpty(chunks, rows);
    }

    /** The newest chunk, or a chunk twice as large in front of it, has room for a table. */
    method MakeRoom()
      requires Valid()
      modifies this`chunks, this`bufIx, this`chunkCount, backing
      ensures Valid() && bufIx < chunks[0].size
      ensures if old(bufIx) == old(chunks)[0].size then chunks[1..] == old(chunks) && chunks[0].size == 2 * old(chunks)[0].size && bufIx == 0
        else chunks == old(chunks) && bufIx == old(bufIx)
    {
      hide Carved, GoodChunks, IsTable, Threaded, NoneTwice;
      FirstFacts(chunks, bufIx, rows, backing.blocks);
      if bufIx == chunks[0].size {
        ghost var was, mark, blocks := chunks, bufIx, backing.blocks;
        var buf := backing.Malloc(chunks[0].size * 2);
        ChunkAdded(was, mark, rows, blocks, buf, backing.blocks);
        chunks, bufIx, chunkCount := [Chunk(buf, chunks[0].size * 2)] + chunks, 0, chunkCount + 1;
      }
      FirstFacts(chunks, bufIx, rows, backing.blocks);
    }

    /** table_allocator_alloc: the head of the free list, or the next table of the newest
        chunk, or the first of a chunk twice as large. */
    method Alloc() returns (p: nat)
      requires Valid()
      modifies this, backing
      ensures Valid() && p != 0 && p !in old(live) && live == old(live) + {p}
      ensures forall q | q in old(live) :: p + rows <= q || q + rows <= p
      ensures old(free) != [] ==> p == old(free)[0] && free == old(free)[1..] && size == old(size) && chunks == old(chunks)
      ensures old(free) == [] ==> free == [] && size == old(size) + 1
      ensures memory == old(memory)
    {
      hide Carved, GoodChunks, IsTable, NoneTwice;
      if fl != 0 {
        p := fl;
        HeadIsTable(chunks, bufIx, rows, backing.blocks, live, free);
        HeadTaken(memory, fl, free);
        fl := memory[p];
        live, free := live + {p}, free[1..];
        return;
      }
      NoneFree(chunks, bufIx, rows, backing.blocks, live, free);
      MakeRoom();
      FirstFacts(chunks, bufIx, rows, backing.blocks);
      p := chunks[0].base + bufIx;
      TableCarved(chunks, bufIx, rows, backing.blocks);
      NewApart(chunks, bufIx + rows, rows, backing.blocks, live, p);
      bufIx := bufIx + rows;
      size := size + 1;
      live := live + {p};
    }

    /** table_allocator_free, of a live table. */
    method Free(p: nat)
      requires Valid() && p in live
      modifies this`fl, this`memory, this`live, this`free
      ensures Valid() && live == old(live) - {p} && free == [p] + old(free)
      ensures memory == old(memory)[p := old(fl)]
    {
      hide Carved, GoodChunks;
      LiveIsTable(chunks, bufIx, rows, backing.blocks, p);
      ThreadedMore(memory, fl, free, p);
      memory := memory[p := fl];
      fl := p;
      live, free := live - {p}, [p] + free;
    }

    /** What the tables' owner does with a live table leaves the pool alone. */
    method ClientWrite(p: nat, row: nat, word: nat)
      requires Valid() && p in live && row < rows
      modifies this`memory
      ensures Valid() && memory == old(memory)[p + row := word]
    {
      hide Carved, GoodChunks;
      forall q | q in free
        ensures q != p + row
      {
        TablesApart(chunks, bufIx, rows, backing.blocks, p, q);
      }
      ThreadedElsewhere(memory, fl, free, p + row, word);
      memory := memory[p + row := word];
    }
  }

  lemma PoolApart(pool: Pool, p: nat, q: nat)
    requires pool.Valid() && (p in pool.live || p in pool.free) && (q in pool.live || q in pool.free) && p != q
    ensures p + pool.rows <= q || q + pool.rows <= p
  {
    hide GoodChunks, IsTable, Threaded, NoneTwice;
    TablesApart(pool.chunks, pool.bufIx, pool.rows, pool.backing.blocks, p, q);
  }

  lemma PoolInside(pool: Pool, p: nat) returns (i: nat)
    requires pool.Valid() && (p in pool.live || p in pool.free)
    ensures i < |pool.chunks| && pool.chunks[i].base <= p && p + pool.rows <= pool.chunks[i].base + pool.chunks[i].size
  {
    hide GoodChunks, IsTable, Threaded, NoneTwice;
    TableInChunk(pool.chunks, pool.bufIx, pool.rows, pool.backing.blocks, p);
    i :| i < |pool.chunks| && Inside(pool.chunks[i], p, pool.rows);
  }

  /** Live tables and free tables are pairwise disjoint, each inside one chunk, and together
      they are all that was carved. */
  lemma PoolIsDisjoint(pool: Pool)
    requires pool.Valid()
    ensures forall p, q | (p in pool.live || p in pool.free) && (q in pool.live || q in pool.free) && p != q ::
      p + pool.rows <= q || q + pool.rows <= p
    ensures forall p | p in pool.live || p in pool.free :: exists i: nat ::
      i < |pool.chunks| && pool.chunks[i].base <= p && p + pool.rows <= pool.chunks[i].base + pool.chunks[i].size
    ensures pool.size == |pool.live| + |pool.free|
  {
    hide GoodChunks, IsTable, Threaded, NoneTwice;
    forall p | p in pool.live || p in pool.free
      ensures exists i: nat :: i < |pool.chunks| && pool.chunks[i].base <= p && p + pool.rows <= pool.chunks[i].base + pool.chunks[i].size
    {
      var i := PoolInside(pool, p);
    }
    forall p, q | (p in pool.live || p in pool.free) && (q in pool.live || q in pool.free) && p != q
      ensures p + pool.rows <= q || q + pool.rows <= p
    {
      PoolApart(pool, p, q);
    }
  }

  lemma LiveIsTable(chunks: seq<Chunk>, bufIx: nat, rows: nat, blocks: seq<Chunk>, p: nat)
    requires rows > 0 && GoodChunks(chunks, bufIx, rows, blocks) && IsTable(chunks, bufIx, rows, p)
    ensures p != 0
  {
    var i: nat :| CarvedIn(chunks, bufIx, rows, p, i);
    CarvedBounds(chunks, bufIx, rows, blocks, p, i);
  }

  lemma HeadIsTable(chunks: seq<Chunk>, bufIx: nat, rows: nat, blocks: seq<Chunk>, live: set<nat>, free: seq<nat>)
    requires rows > 0 && GoodChunks(chunks, bufIx, rows, blocks) && free != []
    requires forall p | p in free :: p !in live
    requires forall p: nat :: IsTable(chunks, bufIx, rows, p) <==> p in live || p in free
    ensures forall q | q in live :: Apart(free[0], q, rows)
  {
    hide GoodChunks, IsTable;
    assert free[0] in free;
    forall q | q in live
      ensures Apart(free[0], q, rows)
    {
      TablesApart(chunks, bufIx, rows, blocks, free[0], q);
    }
  }

  lemma NewApart(chunks: seq<Chunk>, bufIx: nat, rows: nat, blocks: seq<Chunk>, live: set<nat>, p: nat)
    requires rows > 0 && GoodChunks(chunks, bufIx, rows, blocks) && IsTable(chunks, bufIx, rows, p) && p !in live
    requires forall q | q in live :: IsTable(chunks, bufIx, rows, q)
    ensures forall q | q in live :: Apart(p, q, rows)
  {
    hide GoodChunks, IsTable;
    forall q | q in live
      ensures Apart(p, q, rows)
    {
      TablesApart(chunks, bufIx, rows, blocks, p, q);
    }
  }

  /** An empty free list is the only one whose head is 0. */
  lemma NoneFree(chunks: seq<Chunk>, bufIx: nat, rows: nat, blocks: seq<Chunk>, live: set<nat>, free: seq<nat>)
    requires rows > 0 && GoodChunks(chunks, bufIx, rows, blocks) && Head(free) == 0
    requires forall p: nat :: IsTable(chunks, bufIx, rows, p) <==> p in live || p in free
    ensures free == []
  {
    if free != [] {
      assert free[0] in free;
      LiveIsTable(chunks, bufIx, rows, blocks, free[0]);
    }
  }

  lemma HeadTaken(memory: map<nat, nat>, fl: nat, free: seq<nat>)
    requires Threaded(memory, fl, free) && NoneTwice(free) && free != []
    ensures fl in memory && Threaded(memory, memory[fl], free[1..]) && NoneTwice(free[1..]) && fl !in free[1..]
    ensures forall p :: p in free <==> p == fl || p in free[1..]
  {
    var rest := free[1..];
    forall i | 0 <= i < |rest|
      ensures rest[i] in memory && memory[rest[i]] == Head(rest[i + 1..])
    {
      assert rest[i + 1..] == free[i + 1 + 1..] && rest[i] == free[i + 1];
    }
    assert free[0 + 1..] == rest;
  }

  lemma ThreadedMore(memory: map<nat, nat>, fl: nat, free: seq<nat>, p: nat)
    requires Threaded(memory, fl, free) && NoneTwice(free) && p !in free
    ensures Threaded(memory[p := fl], p, [p] + free) && NoneTwice([p] + free)
  {
    var more, m := [p] + free, memory[p := fl];
    forall i | 0 <= i < |more|
      ensures more[i] in m && m[more[i]] == Head(more[i + 1..])
    {
      if i > 0 {
        assert more[i] == free[i - 1] && more[i + 1..] == free[i - 1 + 1..];
      } else {
        assert more[1..] == free;
      }
    }
  }

  /** The mark is never past the end, and when it is not at the end a whole table is left:
      the equality test on it is exact. */
  lemma FirstFacts(chunks: seq<Chunk>, bufIx: nat, rows: nat, blocks: seq<Chunk>)
    requires rows > 0 && GoodChunks(chunks, bufIx, rows, blocks)
    ensures chunks != [] && chunks[0].size > 0 && chunks[0].base > 0
    ensures bufIx != chunks[0].size ==> bufIx + rows <= chunks[0].size
  {
    if bufIx != chunks[0].size {
      StepsApart(bufIx, chunks[0].size, rows);
    }
  }

  lemma {:induction false} ChunkAdded(chunks: seq<Chunk>, bufIx: nat, rows: nat, blocks: seq<Chunk>, base: nat, blocks': seq<Chunk>)
    requires rows > 0 && GoodChunks(chunks, bufIx, rows, blocks) && bufIx == chunks[0].size
    requires base > 0 && blocks' == blocks + [Chunk(base, chunks[0].size * 2)]
    requires forall i | 0 <= i < |blocks| :: Disjoint(blocks[i], Chunk(base, chunks[0].size * 2))
    ensures var more := [Chunk(base, chunks[0].size * 2)] + chunks;
      && GoodChunks(more, 0, rows, blocks')
      && forall p: nat :: IsTable(more, 0, rows, p) <==> IsTable(chunks, bufIx, rows, p)
  {
    hide Carved;
    var more := [Chunk(base, chunks[0].size * 2)] + chunks;
    TwiceWhole(chunks[0].size, rows);
    forall p: nat
      ensures IsTable(more, 0, rows, p) <==> IsTable(chunks, bufIx, rows, p)
    {
      if i: nat :| CarvedIn(chunks, bufIx, rows, p, i) {
        assert CarvedIn(more, 0, rows, p, i + 1);
      }
      if j: nat :| CarvedIn(more, 0, rows, p, j) {
        NothingCarved(more[0], rows, p);
        assert CarvedIn(chunks, bufIx, rows, p, j - 1);
      }
    }
  }

  lemma NothingCarved(c: Chunk, rows: nat, p: nat)
    requires rows > 0
    ensures !Carved(c, 0, rows, p)
  {
  }

  lemma TwiceWhole(size: nat, rows: nat)
    requires rows > 0 && size % rows == 0
    ensures size * 2 % rows == 0
  {
    DivUnique(size * 2, rows, size / rows * 2, 0);
  }

  lemma ThreadedElsewhere(memory: map<nat, nat>, fl: nat, free: seq<nat>, at: nat, word: nat)
    requires Threaded(memory, fl, free) && at !in free
    ensures Threaded(memory[at := word], fl, free)
  {
  }

  lemma OneMoreCarved(c: Chunk, mark: nat, rows: nat, p: nat)
    requires rows > 0 && mark % rows == 0
    ensures Carved(c, mark + rows, rows, p) <==> p == c.base + mark || Carved(c, mark, rows, p)
    ensures (mark + rows) % rows == 0 && !Carved(c, mark, rows, c.base + mark)
  {
    DivUnique(mark + rows, rows, mark / rows + 1, 0);
    if Carved(c, mark + rows, rows, p) && p != c.base + mark {
      StepsApart(p - c.base, mark, rows);
    }
  }

  lemma TableCarved(chunks: seq<Chunk>, bufIx: nat, rows: nat, blocks: seq<Chunk>)
    requires rows > 0 && GoodChunks(chunks, bufIx, rows, blocks) && bufIx < chunks[0].size
    ensures GoodChunks(chunks, bufIx + rows, rows, blocks)
    ensures !IsTable(chunks, bufIx, rows, chunks[0].base + bufIx)
    ensures forall p: nat :: IsTable(chunks, bufIx + rows, rows, p) <==> p == chunks[0].base + bufIx || IsTable(chunks, bufIx, rows, p)
  {
    hide Carved;
    FirstFacts(chunks, bufIx, rows, blocks);
    OneMoreCarved(chunks[0], bufIx, rows, 0);
    var q := chunks[0].base + bufIx;
    if i: nat :| CarvedIn(chunks, bufIx, rows, q, i) {
      CarvedBounds(chunks, bufIx, rows, blocks, q, i);
    }
    var mark := bufIx + rows;
    forall p: nat
      ensures IsTable(chunks, mark, rows, p) <==> p == q || IsTable(chunks, bufIx, rows, p)
    {
      OneMoreCarved(chunks[0], bufIx, rows, p);
      if i: nat :| CarvedIn(chunks, mark, rows, p, i) {
        assert i > 0 ==> CarvedIn(chunks, bufIx, rows, p, i);
        assert i == 0 && p != q ==> CarvedIn(chunks, bufIx, rows, p, 0);
      }
      if i: nat :| CarvedIn(chunks, bufIx, rows, p, i) {
        assert CarvedIn(chunks, mark, rows, p, i);
      }
      assert p == q ==> CarvedIn(chunks, mark, rows, p, 0);
    }
  }

  lemma WholeTables(count: nat, rows: nat)
    requires count > 0 && rows > 0
    ensures count * rows > 0 && count * rows % rows == 0
  {
    MulMonotone(rows, 1, count);
    DivUnique(count * rows, rows, count, 0);
  }

  lemma FreshChunkEmpty(chunks: seq<Chunk>, rows: nat)
    requires rows > 0 && |chunks| == 1
    ensures forall p: nat :: !IsTable(chunks, 0, rows, p)
  {
  }
}
