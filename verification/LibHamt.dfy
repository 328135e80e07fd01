/** The map libhamt promises (src/hamt/hamt.c:233-260, 390-404, 438-481, 575-607, 634). */
module LibHamt {
  import opened Wrappers
  import opened HashTrie
  import opened TrieUpdate
  import opened TrieMap
  import opened LibHeap
  import opened LibMemory
  import opened LibSearch
  import opened LibInsert
  import opened LibSet
  import opened LibRemove

  const SIZE_MODULUS: nat := 0x1_0000_0000_0000_0000

  /** Removing this absent key is reported as a success: the search went below the root. */
  predicate CountsAbsent(hf: LibHash, t: Trie, k: Key)
    requires t.Node?
  {
    Find(hf, t, k, 0).None? && !EndsHere(hf, t, k, 0)
  }

  /** The size field: the number of bindings less the absent keys counted as removed. */
  predicate SizeIs(size: nat, keys: nat, phantoms: nat) {
    size < SIZE_MODULUS && (size + phantoms - keys) % SIZE_MODULUS == 0
  }

  lemma FoundValue(hf: LibHash, h: Heap, t: Trie, loc: Loc, k: Key, sr: SearchResult)
    requires t.Node? && WellFormed(hf, t, 0) && CompactRoot(t) && Anchored(h, loc, t) && Found(hf, t, loc, k, 0, sr)
    ensures sr.status == SearchSuccess <==> Find(hf, t, k, 0).Some?
    ensures sr.status == SearchSuccess ==>
      var v := Find(hf, t, k, 0).value; HoldsRow(h, sr.value, Row(Tagged(v), k)) && v % 4 == 0 && Untagged(Tagged(v)) == v
  {
    hide WellFormed, Anchored, CompactRoot, Find, Found;
    FoundIsFind(hf, t, loc, k, sr);
    if sr.status == SearchSuccess {
      var x := StoppedAt(hf, h, t, loc, k, sr);
      AnchoredRow(h, sr.value, x);
      FindAlong(hf, t, k, 0, sr.hash.depth + 1);
      LeafFind(hf, x, k, sr.hash.depth + 1);
    }
  }

  lemma LeafFind(hf: LibHash, x: Trie, k: Key, d: nat)
    requires x.Leaf? && x.key == k
    ensures Find(hf, x, k, d) == Some(x.value)
  {
  }

  /** size_t arithmetic. */
  function More(size: nat): nat {
    (size + 1) % SIZE_MODULUS
  }

  function Fewer(size: nat): nat {
    (size + SIZE_MODULUS - 1) % SIZE_MODULUS
  }

  class Hamt {
    const mem: Memory
    const hf: LibHash
    var root: Loc
    var size: nat
    ghost var trie: Trie
    ghost var phantoms: nat

    ghost predicate Valid()
      reads this, mem
    {
      && trie.Node? && WellFormed(hf, trie, 0) && CompactRoot(trie)
      && Anchored(mem.tables, root, trie)
      && SizeIs(size, |Bindings()|, phantoms)
    }

    ghost function Bindings(): (m: map<Key, nat>)
      reads this
    {
      BindingsOf(hf, trie)
    }

    /** hamt_create. The memory is shared by all the maps made in it. */
    constructor (mem: Memory, hf: LibHash)
      modifies mem
      ensures Valid() && this.mem == mem && this.hf == hf && Bindings() == map[] && phantoms == 0 && size == 0
      ensures Spares(old(mem.tables), mem.tables, {})
    {
      this.mem, this.hf := mem, hf;
      var p := mem.TableAllocate(1);
      mem.SetRow(Loc(p, 0), Row(0, 0));
      root, size := Loc(p, 0), 0;
      trie, phantoms := Node(0, 0, []), 0;
      EmptyFits(32);
    }

    lemma ValidTrie()
      requires Valid()
      ensures trie.Node? && WellFormed(hf, trie, 0) && CompactRoot(trie) && Anchored(mem.tables, root, trie)
      ensures SizeIs(size, |Bindings()|, phantoms) && Bindings() == BindingsOf(hf, trie)
    {
    }

    /** hamt_get, with 0 for NULL. */
    method Get(key: Key) returns (value: nat)
      requires Valid()
      modifies mem
      ensures mem.tables == old(mem.tables)
      ensures value == if key in Bindings() then Bindings()[key] else 0
    {
      hide WellFormed, Anchored, CompactRoot, Holds, Separate, Tables, Find, Found, Valid, Bindings, BindingsOf;
      ghost var t2;
      var sr;
      ValidTrie();
      sr, t2 := SearchRecursive(mem, hf, root, HashStart(hf, key), key, None, trie, 0);
      FoundValue(hf, mem.tables, trie, root, key, sr);
      BindingIsFind(hf, trie, key);
      if sr.status == SearchSuccess {
        return Untagged(mem.RowAt(sr.value).word);
      }
      return 0;
    }

    /** hamt_set: in place. The old tables of this map and its root row may change, no others. */
    method Set(key: Key, value: nat) returns (result: nat)
      requires Valid() && value % 4 == 0 && Distinct(hf, Bindings().Keys + {key})
      modifies this, mem
      ensures Valid() && root == old(root) && phantoms == old(phantoms)
      ensures Bindings() == old(Bindings())[key := value] && result == value
      ensures OnlyChanges(old(mem.tables), mem.tables, root, old(Tables(trie)), RowOf(trie))
    {
      hide WellFormed, Anchored, CompactRoot, Holds, Separate, Tables, Find, Found, Valid, Bindings, BindingsOf, Distinct, OnlyChanges,
        Spares, SizeIs, More, Fewer, Updated, Tagged, Untagged, Own, At, Leads;
      ghost var m := Bindings();
      ValidTrie();
      BindingsAreKeys(hf, trie);
      SizeAfterSet(size, phantoms, m, key, value);
      BindingIsFind(hf, trie, key);
      ghost var t2;
      var sr;
      sr, t2 := SearchRecursive(mem, hf, root, HashStart(hf, key), key, None, trie, 0);
      var inserted, added;
      ghost var u;
      inserted, added, u := SetFound(mem, hf, root, sr, key, value, trie);
      UpdatedMap(hf, old(mem.tables), mem.tables, root, trie, u, key, Some(value));
      if added {
        size := More(size);
      }
      trie := u;
      TagUndone(value);
      result := Untagged(mem.RowAt(inserted).word);
      NowValid(m[key := value]);
    }

    /** hamt_remove: in place. */
    method Remove(key: Key) returns (result: nat)
      requires Valid()
      modifies this, mem
      ensures Valid() && root == old(root)
      ensures Bindings() == old(Bindings()) - {key}
      ensures result == if key in old(Bindings()) then old(Bindings())[key] else 0
      ensures phantoms == old(phantoms) + if CountsAbsent(hf, old(trie), key) then 1 else 0
      ensures key !in old(Bindings()) ==> mem.tables == old(mem.tables) && Shape(trie) == old(Shape(trie))
      ensures OnlyChanges(old(mem.tables), mem.tables, root, old(Tables(trie)), RowOf(trie))
    {
      hide WellFormed, Anchored, CompactRoot, Holds, Separate, Tables, Find, Valid, Bindings, BindingsOf, OnlyChanges, Removed,
        EndsHere, SizeIs, More, Fewer, Shape;
      ghost var m, t := Bindings(), trie;
      ValidTrie();
      SizeAfterRemove(size, phantoms, m, key);
      BindingIsFind(hf, trie, key);
      var status, value;
      ghost var u;
      status, value, u := RemRecursive(mem, hf, root, root, HashStart(hf, key), key, None, trie, 0);
      RemovedMap(hf, old(mem.tables), mem.tables, root, Tables(trie), trie, u, key);
      ValuesUntagged(hf, trie, key);
      trie := u;
      result := 0;
      if status == RemoveSuccess || status == Gathered {
        size := Fewer(size);
        phantoms := phantoms + if key in m then 0 else 1;
        result := Untagged(value);
      }
      NowValid(m - {key});
    }

    /** hamt_copy_shallow with another root. */
    constructor Copy(h: Hamt, root: Loc, size: nat, ghost trie: Trie, ghost phantoms: nat)
      requires trie.Node? && WellFormed(h.hf, trie, 0) && CompactRoot(trie) && Anchored(h.mem.tables, root, trie)
      requires SizeIs(size, |BindingsOf(h.hf, trie)|, phantoms)
      ensures this.mem == h.mem && this.hf == h.hf && this.phantoms == phantoms
      ensures Valid() && Bindings() == BindingsOf(h.hf, trie)
    {
      hide WellFormed, Anchored, CompactRoot, SizeIs, BindingsOf, Valid, Bindings;
      this.mem, this.hf, this.root, this.size, this.trie, this.phantoms := h.mem, h.hf, root, size, trie, phantoms;
      new;
      NowValid(BindingsOf(hf, trie));
    }

    /** search: a new root row, and the way to the key copied below it. */
    method Search(key: Key) returns (path: Loc, sr: SearchResult, ghost t2: Trie)
      requires Valid()
      modifies mem
      ensures t2.Node? && WellFormed(hf, t2, 0) && CompactRoot(t2) && Anchored(mem.tables, path, t2)
      ensures Keys(t2) == Keys(trie) && BindingsOf(hf, t2) == Bindings() && Found(hf, t2, path, key, 0, sr)
      ensures SparesAll(old(mem.tables), mem.tables, {sr.anchor.table} + Own(At(hf, t2, key, 0, sr.hash.depth)))
    {
      hide WellFormed, Anchored, CompactRoot, Holds, Separate, Tables, Find, Found, Valid, Bindings, BindingsOf, OnlyChanges,
        Spares, SizeIs, WayCopied, Shape, Own, At, Leads, SparesAll;
      ghost var h0 := mem.tables;
      ValidTrie();
      var p := mem.TableAllocate(1);
      path := Loc(p, 0);
      ghost var h1 := mem.tables;
      RoomForRoot(h0, h1, p, root, trie);
      sr, t2 := SearchRecursive(mem, hf, root, HashStart(hf, key), key, Some(path), trie, 0);
      CopiedMap(hf, h1, mem.tables, path, trie, t2, key, sr.hash.depth);
      OldTablesSpared(hf, h0, h1, mem.tables, path, trie, t2, key, sr);
    }

    /** hamt_pset: a new map; every table that existed before is left as it was. */
    method PSet(key: Key, value: nat) returns (cp: Hamt)
      requires Valid() && value % 4 == 0 && Distinct(hf, Bindings().Keys + {key})
      modifies mem
      ensures fresh(cp) && cp.mem == mem && cp.hf == hf && cp.Valid() && cp.phantoms == phantoms
      ensures cp.Bindings() == Bindings()[key := value]
      ensures Valid() && Spares(old(mem.tables), mem.tables, {})
    {
      hide WellFormed, Anchored, CompactRoot, Holds, Separate, Tables, Find, Found, Valid, Bindings, BindingsOf, Distinct, OnlyChanges,
        Spares, SizeIs, More, Fewer, Updated, HoldsRow, Own, At, Leads, SparesAll;
      ghost var m, h0 := Bindings(), mem.tables;
      ValidTrie();
      BindingsAreKeys(hf, trie);
      SizeAfterSet(size, phantoms, m, key, value);
      var path, sr;
      ghost var t2;
      path, sr, t2 := Search(key);
      ghost var h2 := mem.tables;
      BindingIsFind(hf, t2, key);
      FoundIsFind(hf, t2, path, key, sr);
      var inserted, added;
      ghost var u;
      inserted, added, u := SetFound(mem, hf, path, sr, key, value, t2);
      UpdatedMap(hf, h2, mem.tables, path, t2, u, key, Some(value));
      SparedInTheEnd(h0, h2, mem.tables, {sr.anchor.table} + Own(At(hf, t2, key, 0, sr.hash.depth)));
      assert BindingsOf(hf, u) == m[key := value] && (added <==> key !in m);
      var newSize := if added then More(size) else size;
      assert SizeIs(newSize, |m[key := value]|, phantoms);
      cp := new Hamt.Copy(this, path, newSize, u, phantoms);
      StillAnchored(h0, mem.tables, root, trie);
      NowValid(m);
    }

    /** hamt_premove: likewise. */
    method PRemove(key: Key) returns (cp: Hamt)
      requires Valid()
      modifies mem
      ensures fresh(cp) && cp.mem == mem && cp.hf == hf && cp.Valid()
      ensures cp.Bindings() == Bindings() - {key}
      ensures cp.phantoms == phantoms + if CountsAbsent(hf, trie, key) then 1 else 0
      ensures Valid() && Spares(old(mem.tables), mem.tables, {})
    {
      hide WellFormed, Anchored, CompactRoot, Holds, Separate, Tables, Find, Valid, Bindings, BindingsOf, OnlyChanges, Removed, EndsHere,
        SizeIs, More, Fewer, Shape, Spares;
      ghost var m, h0 := Bindings(), mem.tables;
      ValidTrie();
      SizeAfterRemove(size, phantoms, m, key);
      BindingIsFind(hf, trie, key);
      var p := mem.TableAllocate(1);
      var path := Loc(p, 0);
      ghost var h1 := mem.tables;
      RoomForRoot(h0, h1, p, root, trie);
      var status, value;
      ghost var u;
      status, value, u := RemRecursive(mem, hf, path, root, HashStart(hf, key), key, Some(path), trie, 0);
      RemovedMap(hf, h1, mem.tables, path, {}, trie, u, key);
      NewRootOnly(h0, h1, mem.tables, p, path, RowOf(u));
      var counted := status == RemoveSuccess || status == Gathered;
      cp := new Hamt.Copy(this, path, if counted then Fewer(size) else size, u,
                          phantoms + if counted && key !in m then 1 else 0);
      StillAnchored(h0, mem.tables, root, trie);
      NowValid(m);
    }

    lemma NowValid(m: map<Key, nat>)
      requires trie.Node? && WellFormed(hf, trie, 0) && CompactRoot(trie) && Anchored(mem.tables, root, trie)
      requires BindingsOf(hf, trie) == m && SizeIs(size, |m|, phantoms)
      ensures Valid() && Bindings() == m
    {
    }
  }

  lemma SizeUp(size: nat, keys: nat, phantoms: nat)
    requires SizeIs(size, keys, phantoms)
    ensures SizeIs(More(size), keys + 1, phantoms)
  {
    assert More(size) == if size + 1 < SIZE_MODULUS then size + 1 else size + 1 - SIZE_MODULUS;
  }

  lemma SizeDown(size: nat, keys: nat, phantoms: nat)
    requires SizeIs(size, keys, phantoms)
    ensures keys > 0 ==> SizeIs(Fewer(size), keys - 1, phantoms)
    ensures SizeIs(Fewer(size), keys, phantoms + 1)
  {
    assert Fewer(size) == if size > 0 then size - 1 else SIZE_MODULUS - 1;
  }

  /** A bound key leaves the size, a new one adds one. */
  lemma SizeAfterSet(size: nat, phantoms: nat, m: map<Key, nat>, key: Key, value: nat)
    requires SizeIs(size, |m|, phantoms)
    ensures SizeIs(if key in m then size else More(size), |m[key := value]|, phantoms)
  {
    hide SizeIs, More, Fewer;
    MapAdds(m, key, value);
    SizeUp(size, |m|, phantoms);
  }

  lemma SizeAfterRemove(size: nat, phantoms: nat, m: map<Key, nat>, key: Key)
    requires SizeIs(size, |m|, phantoms)
    ensures key in m ==> SizeIs(Fewer(size), |m - {key}|, phantoms)
    ensures key !in m ==> m - {key} == m && SizeIs(Fewer(size), |m|, phantoms + 1)
  {
    hide SizeIs, More, Fewer;
    SizeDown(size, |m|, phantoms);
    if key in m {
      MapDrops(m, key);
    }
  }

  lemma UpdatedMap(hf: LibHash, h: Heap, h': Heap, loc: Loc, t: Trie, u: Trie, k: Key, v: Option<nat>)
    requires WellFormed(hf, t, 0) && Updated(hf, h, h', loc, t, u, k, v)
    ensures u.Node? && WellFormed(hf, u, 0) && CompactRoot(u) && Anchored(h', loc, u)
    ensures OnlyChanges(h, h', loc, Tables(t), RowOf(u))
    ensures BindingsOf(hf, u) == Bound(BindingsOf(hf, t), k, v)
  {
    hide WellFormed, Anchored, CompactRoot, Tables, Updates, BindingsOf, OnlyChanges, OwnOrNew;
    UpdateIsUpdate(hf, t, u, k, v);
  }

  lemma RemovedMap(hf: LibHash, h: Heap, h': Heap, loc: Loc, own: set<Ptr>, t: Trie, u: Trie, k: Key)
    requires WellFormed(hf, t, 0) && Removed(hf, h, h', loc, own, t, u, k, 0)
    ensures u.Node? && WellFormed(hf, u, 0) && CompactRoot(u) && Anchored(h', loc, u)
    ensures OnlyChanges(h, h', loc, own, RowOf(u))
    ensures BindingsOf(hf, u) == BindingsOf(hf, t) - {k}
  {
    hide WellFormed, Anchored, Tables, Updates, BindingsOf, OnlyChanges, OwnOrNew;
    UpdateIsUpdate(hf, t, u, k, None);
  }

  // ----- Persistence -----

  lemma RoomForRoot(h: Heap, h': Heap, p: Ptr, root: Loc, t: Trie)
    requires Anchored(h, root, t) && FreshTable(h, p) && p in h' && |h'[p]| == 1 && h' == h[p := h'[p]]
    ensures Anchored(h', root, t) && CanCopyTo(h', Loc(p, 0), t)
  {
    TablesInHeap(h, t);
    HoldsFrame(h, h', t);
  }

  /** Every map anchored in tables that were spared is still there. */
  lemma StillAnchored(h: Heap, h': Heap, loc: Loc, t: Trie)
    requires Anchored(h, loc, t) && Spares(h, h', {})
    ensures Anchored(h', loc, t)
  {
    TablesInHeap(h, t);
    HoldsFrame(h, h', t);
  }

  lemma NewRootOnly(h0: Heap, h1: Heap, h: Heap, p: Ptr, loc: Loc, row: Row)
    requires p !in h0 && h1.Keys == h0.Keys + {p} && (forall q | q in h0 :: h1[q] == h0[q])
    requires loc.table == p && OnlyChanges(h1, h, loc, {}, row)
    ensures Spares(h0, h, {})
  {
  }

  lemma CopiedMap(hf: LibHash, h: Heap, h': Heap, path: Loc, t: Trie, t2: Trie, k: Key, n: nat)
    requires WellFormed(hf, t, 0) && CompactRoot(t) && WayCopied(hf, h, h', path, t, t2, k, 0, n)
    ensures t2.Node? && WellFormed(hf, t2, 0) && CompactRoot(t2) && Anchored(h', path, t2)
    ensures Keys(t2) == Keys(t) && BindingsOf(hf, t2) == BindingsOf(hf, t)
  {
    hide WellFormed, Anchored, Find, Leads, NewWay, OnlyChanges, OwnOrNew;
    ShapeKeeps(hf, t, t2, 0);
    SameCompactRoot(hf, t, t2);
    forall k' | k' in Keys(t)
      ensures Find(hf, t, k', 0) == Find(hf, t2, k', 0)
    {
      assert Alike(hf, t, t2, k', 0);
    }
  }

  lemma SameCompactRoot(hf: LibHash, t: Trie, u: Trie)
    requires Shape(t) == Shape(u) && CompactRoot(t)
    ensures CompactRoot(u)
  {
    forall i | 0 <= i < |u.rows|
      ensures Compact(u.rows[i])
    {
      assert Shape(t).rows[i] == Shape(u).rows[i];
      ShapeKeeps(hf, t.rows[i], u.rows[i], 1);
    }
  }

  /** Where a search of a copied way ends, everything is new. */
  lemma {:induction false} NewWayEnds(hf: LibHash, h: Heap, t: Trie, loc: Loc, k: Key, d: nat, n: nat)
    requires Leads(hf, t, k, d, n) && NewWay(hf, h, t, k, d, n)
    ensures d < n ==> LocAt(hf, t, loc, k, d, n).table !in h
    ensures d == n ==> LocAt(hf, t, loc, k, d, n) == loc
    ensures forall q | q in Own(At(hf, t, k, d, n)) :: q !in h
    decreases t
  {
    if d < n {
      var r := RowFor(hf, t, k, d);
      NewWayEnds(hf, h, t.rows[r], Loc(t.ptr, r), k, d + 1, n);
    }
  }

  /** No old table has changed, and none is among those that may still change. */
  ghost predicate SparesAll(h: Heap, h': Heap, next: set<Ptr>) {
    Spares(h, h', {}) && forall q | q in next :: q !in h
  }

  lemma OldTablesSpared(hf: LibHash, h0: Heap, h1: Heap, h2: Heap, path: Loc, t: Trie, t2: Trie, k: Key, sr: SearchResult)
    requires path.table !in h0 && h1.Keys == h0.Keys + {path.table} && (forall q | q in h0 :: h1[q] == h0[q])
    requires Found(hf, t2, path, k, 0, sr) && WayCopied(hf, h1, h2, path, t, t2, k, 0, sr.hash.depth)
    ensures Leads(hf, t2, k, 0, sr.hash.depth)
    ensures SparesAll(h0, h2, {sr.anchor.table} + Own(At(hf, t2, k, 0, sr.hash.depth)))
  {
    NewWayEnds(hf, h1, t2, path, k, 0, sr.hash.depth);
  }

  lemma SparedInTheEnd(h0: Heap, h: Heap, h': Heap, touched: set<Ptr>)
    requires SparesAll(h0, h, touched) && Spares(h, h', touched)
    ensures Spares(h0, h', {})
  {
  }

  lemma TagUndone(v: nat)
    requires v % 4 == 0
    ensures Untagged(Tagged(v)) == v
  {
  }

  /** Every value found is a multiple of four, so tagging loses nothing. */
  lemma ValuesUntagged(hf: LibHash, t: Trie, k: Key)
    requires WellFormed(hf, t, 0)
    ensures Find(hf, t, k, 0).Some? ==> Untagged(Tagged(Find(hf, t, k, 0).value)) == Find(hf, t, k, 0).value
  {
    hide WellFormed, Find, Tagged, Untagged;
    ValuesAligned(hf, t, k, 0);
    if Find(hf, t, k, 0).Some? {
      TagUndone(Find(hf, t, k, 0).value);
    }
  }

  lemma {:induction false} ValuesAligned(hf: LibHash, t: Trie, k: Key, d: nat)
    requires WellFormed(hf, t, d)
    ensures Find(hf, t, k, d).Some? ==> Find(hf, t, k, d).value % 4 == 0
    decreases t
  {
    if t.Node? && Find(hf, t, k, d).Some? {
      ValuesAligned(hf, t.rows[RowFor(hf, t, k, d)], k, d + 1);
    }
  }
}
