/** The table operations of libhamt (src/hamt/hamt.c:118-236) on a memory of tables. */
module LibMemory {
  import opened Words
  import opened Bitmap
  import opened HashTrie
  import opened LibHeap

  predicate FreshTable(h: Heap, p: Ptr) {
    p != 0 && p % 4 == 0 && p !in h
  }

  /** However many tables there are, there is room for one more. */
  lemma RoomForOne(h: Heap)
    ensures exists p: Ptr :: FreshTable(h, p)
  {
    var m := Largest(h.Keys);
    assert FreshTable(h, 4 * (m + 1));
  }

  /** Row r of the anchor's table is replaced, or its table exchanged for a new one. */
  ghost predicate Rewrites(h: Heap, h': Heap, loc: Loc, own: set<Ptr>, t: Trie, s: Trie) {
    && own <= Tables(t)
    && OnlyChanges(h, h', loc, own, RowOf(s))
    && Anchored(h', loc, s)
    && OwnOrNew(h, Tables(t), s)
  }

  class Memory {
    var tables: Heap

    constructor ()
      ensures tables == map[]
    {
      tables := map[];
    }

    function RowAt(loc: Loc): Row
      requires loc.table in tables && loc.index < |tables[loc.table]|
      reads this
    {
      tables[loc.table][loc.index]
    }

    method SetRow(loc: Loc, row: Row)
      requires loc.table in tables && loc.index < |tables[loc.table]|
      modifies this
      ensures tables == old(tables)[loc.table := old(tables)[loc.table][loc.index := row]]
    {
      tables := tables[loc.table := tables[loc.table][loc.index := row]];
    }

    /** Any free address; the rows are whatever was there. */
    method TableAllocate(size: nat) returns (p: Ptr)
      modifies this
      ensures size == 0 ==> p == 0 && tables == old(tables)
      ensures size > 0 ==>
        FreshTable(old(tables), p) && p in tables && |tables[p]| == size && tables == old(tables)[p := tables[p]]
    {
      if size == 0 {
        return 0;
      }
      RoomForOne(tables);
      p :| FreshTable(tables, p);
      var garbage: Row := *;
      tables := tables[p := seq(size, _ => garbage)];
    }

    /** Only a table in use is freed, with the row count it was allocated with. */
    method TableFree(p: Ptr, size: nat)
      requires p != 0 && size != 0 ==> p in tables && |tables[p]| == size
      modifies this
      ensures tables == if p != 0 && size != 0 then old(tables) - {p} else old(tables)
    {
      if p != 0 && size != 0 {
        tables := tables - {p};
      }
    }

    /** Copies the rows into a larger table with a gap at pos. */
    method TableExtend(anchor: Loc, nRows: nat, index: nat, pos: nat, ghost rows: seq<Row>)
      requires anchor.table in tables && anchor.index < |tables[anchor.table]|
      requires |rows| == nRows && pos <= nRows
      requires nRows > 0 ==> RowAt(anchor).word in tables && tables[RowAt(anchor).word] == rows
      requires nRows > 0 ==> RowAt(anchor).word != anchor.table && RowAt(anchor).word != 0
      modifies this
      ensures anchor.table in tables && anchor.index < |tables[anchor.table]|
      ensures var p, q := RowAt(anchor).word, old(RowAt(anchor).word);
        && FreshTable(old(tables), p) && p in tables && |tables[p]| == nRows + 1
        && tables[p][..pos] == rows[..pos] && tables[p][pos + 1..] == rows[pos..]
        && OnlyChanges(old(tables), tables, anchor, if nRows > 0 then {q} else {},
                       Row(p, Set(old(RowAt(anchor).other), index)))
    {
      var p := TableAllocate(nRows + 1);
      var was := RowAt(anchor);
      if nRows > 0 {
        var source, target := tables[was.word], tables[p];
        target := source[..pos] + target[pos..];
        target := target[..pos + 1] + source[pos..];
        tables := tables[p := target];
      }
      TableFree(was.word, nRows);
      SetRow(anchor, Row(p, Set(was.other, index)));
    }

    /** Copies all rows but one into a smaller table, or drops the last table. */
    method TableShrink(anchor: Loc, nRows: nat, index: nat, pos: nat, ghost rows: seq<Row>)
      requires anchor.table in tables && anchor.index < |tables[anchor.table]|
      requires |rows| == nRows && pos < nRows
      requires RowAt(anchor).word in tables && tables[RowAt(anchor).word] == rows
      requires RowAt(anchor).word != anchor.table && RowAt(anchor).word != 0
      modifies this
      ensures anchor.table in tables && anchor.index < |tables[anchor.table]|
      ensures var p, q := RowAt(anchor).word, old(RowAt(anchor).word);
        if nRows > 1 then
          && FreshTable(old(tables), p) && p in tables && tables[p] == rows[..pos] + rows[pos + 1..]
          && OnlyChanges(old(tables), tables, anchor, {q}, Row(p, Clear(old(RowAt(anchor).other), index)))
        else
          OnlyChanges(old(tables), tables, anchor, {q}, Row(0, 0))
    {
      var was := RowAt(anchor);
      var p, bitmap := 0, 0;
      if nRows > 1 {
        p := TableAllocate(nRows - 1);
        bitmap := Clear(was.other, index);
        var source := tables[was.word];
        tables := tables[p := source[..pos] + source[pos + 1..]];
      }
      TableFree(was.word, nRows);
      SetRow(anchor, Row(p, bitmap));
    }

    /** Pulls a value row up into the anchor and frees its table. */
    method TableGather(anchor: Loc, pos: nat, nRows: nat)
      requires anchor.table in tables && anchor.index < |tables[anchor.table]|
      requires RowAt(anchor).word in tables && pos < |tables[RowAt(anchor).word]| == nRows
      requires RowAt(anchor).word != anchor.table && RowAt(anchor).word != 0
      modifies this
      ensures OnlyChanges(old(tables), tables, anchor, {old(RowAt(anchor).word)},
                          old(tables)[old(RowAt(anchor).word)][pos])
    {
      var table := RowAt(anchor).word;
      var row := tables[table][pos];
      SetRow(anchor, row);
      TableFree(table, nRows);
    }

    method TableDup(anchor: Loc, nRows: nat) returns (p: Ptr)
      requires anchor.table in tables && anchor.index < |tables[anchor.table]|
      requires nRows > 0 ==> RowAt(anchor).word in tables && |tables[RowAt(anchor).word]| == nRows
      modifies this
      ensures nRows == 0 ==> p == 0 && tables == old(tables)
      ensures nRows > 0 ==>
        FreshTable(old(tables), p) && tables == old(tables)[p := old(tables[RowAt(anchor).word])]
    {
      var source := RowAt(anchor).word;
      p := TableAllocate(nRows);
      if nRows > 0 {
        tables := tables[p := tables[source]];
      }
    }
  }
}
