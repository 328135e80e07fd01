/** The database a compilation session leaves behind, and when it can be linked. */
module Session {
  import opened Words
  import opened Blob
  import opened Wrappers
  import opened Language
  import opened Compiler
  import opened Linkage
  import opened Simulation
  import opened Frames
  import P = Primitives

  // ----- Content addressing -----

  /** No two of the records, and no record and earlier entry, meet under one CID. */
  predicate Agree(h: Hash, db: Store, rs: seq<Record>) {
    && (forall i | 0 <= i < |rs| :: h(rs[i].data) in db ==> db[h(rs[i].data)] == rs[i])
    && (forall i, j | 0 <= i < j < |rs| :: h(rs[i].data) == h(rs[j].data) ==> rs[i] == rs[j])
  }

  predicate AllStored(h: Hash, db: Store, rs: seq<Record>) {
    forall i | 0 <= i < |rs| :: HasRecord(db, h, rs[i])
  }

  lemma {:induction false} PutAllKeeps(h: Hash, db: Store, rs: seq<Record>, cid: Cid)
    ensures cid in db ==> cid in PutAll(h, db, rs) && PutAll(h, db, rs)[cid] == db[cid]
    decreases rs
  {
    if rs != [] {
      PutAllKeeps(h, Put(h, db, rs[0]), rs[1..], cid);
    }
  }

  /** Storing a list of records keeps every one of them exactly when they agree. */
  lemma {:induction false} StoredIffAgree(h: Hash, db: Store, rs: seq<Record>)
    ensures AllStored(h, PutAll(h, db, rs), rs) <==> Agree(h, db, rs)
    decreases rs
  {
    if rs != [] {
      var r, rest, db' := rs[0], rs[1..], Put(h, db, rs[0]);
      StoredIffAgree(h, db', rest);
      PutAllKeeps(h, db', rest, h(r.data));
      var all := PutAll(h, db, rs);
      if Agree(h, db, rs) {
        assert HasRecord(db', h, r);
        forall i | 0 <= i < |rest|
          ensures h(rest[i].data) in db' ==> db'[h(rest[i].data)] == rest[i]
        {
          assert rest[i] == rs[i + 1];
        }
        assert Agree(h, db', rest);
        forall i | 0 <= i < |rs|
          ensures HasRecord(all, h, rs[i])
        {
          if i > 0 {
            assert rs[i] == rest[i - 1];
          }
        }
      }
      if AllStored(h, all, rs) {
        forall i, j | 0 <= i < j < |rs|
          ensures h(rs[i].data) == h(rs[j].data) ==> rs[i] == rs[j]
        {
          assert HasRecord(all, h, rs[i]) && HasRecord(all, h, rs[j]);
        }
        forall i | 0 <= i < |rs|
          ensures h(rs[i].data) in db ==> db[h(rs[i].data)] == rs[i]
        {
          assert HasRecord(all, h, rs[i]);
          PutAllKeeps(h, db, rs, h(rs[i].data));
        }
      }
    }
  }

  /** A CID is in the store if it was before or belongs to one of the records. */
  /** Of the records under a new CID the first is kept. */
  lemma {:induction false} FirstKept(h: Hash, db: Store, rs: seq<Record>, i: nat)
    requires i < |rs| && h(rs[i].data) !in db && forall j | 0 <= j < i :: h(rs[j].data) != h(rs[i].data)
    ensures var cid := h(rs[i].data); cid in PutAll(h, db, rs) && PutAll(h, db, rs)[cid] == rs[i]
    decreases i
  {
    if i == 0 {
      PutAllKeeps(h, Put(h, db, rs[0]), rs[1..], h(rs[0].data));
    } else {
      assert forall j | 0 <= j < i - 1 :: rs[1..][j] == rs[j + 1];
      FirstKept(h, Put(h, db, rs[0]), rs[1..], i - 1);
    }
  }

  lemma {:induction false} PutAllOnly(h: Hash, db: Store, rs: seq<Record>, cid: Cid)
    requires cid in PutAll(h, db, rs) && cid !in db
    ensures exists i | 0 <= i < |rs| :: h(rs[i].data) == cid && PutAll(h, db, rs)[cid] == rs[i]
    decreases rs
  {
    var db' := Put(h, db, rs[0]);
    if cid in db' {
      PutAllKeeps(h, db', rs[1..], cid);
      assert h(rs[0].data) == cid;
    } else {
      PutAllOnly(h, db', rs[1..], cid);
      var i :| 0 <= i < |rs[1..]| && h(rs[1..][i].data) == cid && PutAll(h, db', rs[1..])[cid] == rs[1..][i];
      assert rs[1..][i] == rs[i + 1];
    }
  }

  /** The hash separates the byte strings that were stored. */
  predicate CollisionFree(h: Hash, rs: seq<Record>) {
    forall i, j | 0 <= i < j < |rs| :: h(rs[i].data) == h(rs[j].data) ==> rs[i].data == rs[j].data
  }

  /** Some literal has the same eight bytes as the code of some word. */
  predicate KindClash(rs: seq<Record>) {
    exists i, j | 0 <= i < |rs| && 0 <= j < |rs| :: Clash(rs[i], rs[j])
  }

  predicate Clash(r: Record, t: Record) {
    r.data == t.data && r.kind == KIND_DATA && t.kind == KIND_WORD
  }

  predicate TwoKinds(rs: seq<Record>) {
    forall i | 0 <= i < |rs| :: rs[i].kind == KIND_DATA || rs[i].kind == KIND_WORD
  }

  /** The CID covers the bytes and not the kind: with a perfect hash, a session loses a
      record exactly when a literal and a word have equal bytes. */
  lemma LosesRecordIffKindClash(h: Hash, rs: seq<Record>)
    requires CollisionFree(h, rs) && TwoKinds(rs)
    ensures Agree(h, map[], rs) <==> !KindClash(rs)
  {
    if KindClash(rs) {
      var i, j :| 0 <= i < |rs| && 0 <= j < |rs| && Clash(rs[i], rs[j]);
      var low, high := if i < j then i else j, if i < j then j else i;
      assert h(rs[low].data) == h(rs[high].data) && rs[low] != rs[high];
    }
    if !KindClash(rs) {
      forall i, j | 0 <= i < j < |rs| && h(rs[i].data) == h(rs[j].data)
        ensures rs[i] == rs[j]
      {
        assert !Clash(rs[i], rs[j]) && !Clash(rs[j], rs[i]);
      }
    }
  }

  lemma {:induction false} RecordsHaveTwoKinds(h: Hash, p: Prog)
    ensures TwoKinds(Records(h, p))
    decreases p, 0
  {
    match p
    case End =>
    case Then(s, rest) =>
      match s {
        case Lit(_) =>
        case Prim(_) =>
        case Call(body) => RecordsHaveTwoKinds(h, body);
        case If(yes, no) => RecordsHaveTwoKinds(h, yes); RecordsHaveTwoKinds(h, no);
        case Times(body) => RecordsHaveTwoKinds(h, body);
        case Until(cond, body) => RecordsHaveTwoKinds(h, cond); RecordsHaveTwoKinds(h, body);
      }
      RecordsHaveTwoKinds(h, rest);
  }

  const DUP_FOUR: Prog := Then(Prim(P.DUP), Then(Prim(P.DUP), Then(Prim(P.DUP), Then(Prim(P.DUP), End))))
  /** 12 + 12 * 2^16 + 12 * 2^32 + 12 * 2^48 = 3377751260790796. */
  ghost const CLASH_LITERAL: Int64 := ToInt64(FromLittleEndian(CLASH_BYTES))
  const CLASH_BYTES: seq<Byte> := [12, 0, 12, 0, 12, 0, 12, 0]

  /** The clash is real: the literal 3377751260790796 and the word dup dup dup dup. Whatever the hash,
      the word is looked up and a literal is found. */
  lemma LiteralShadowsWord(h: Hash)
    ensures var p := Then(Lit(CLASH_LITERAL), Then(Call(DUP_FOUR), End));
      Structured(p) && Small(p) && !Stored(PutAll(h, map[], Records(h, p)), h, p)
  {
    hide LittleEndian, FromLittleEndian, Encode, Code;
    ClashBytes(h);
    ClashLiteral();
    var lit, word := Record(KIND_DATA, CLASH_BYTES), Record(KIND_WORD, CLASH_BYTES);
    assert Records(h, DUP_FOUR.rest.rest) == [];
    var call := Then(Call(DUP_FOUR), End);
    assert Records(h, call) == RecordsStmt(h, Call(DUP_FOUR)) == [word];
    var p := Then(Lit(CLASH_LITERAL), call);
    assert Records(h, p) == [lit, word];
    var db := map[h(CLASH_BYTES) := lit];
    assert [lit, word][1..] == [word] && [word][1..] == [];
    assert PutAll(h, map[], [lit, word]) == PutAll(h, Put(h, map[], lit), [word]);
    assert PutAll(h, db, [word]) == PutAll(h, Put(h, db, word), []) == db;
    assert !HasRecord(db, h, word);
    assert !StoredStmt(db, h, Call(DUP_FOUR));
    assert !Stored(db, h, call);
  }

  lemma ClashBytes(h: Hash)
    ensures LiteralBytes(CLASH_LITERAL) == CLASH_BYTES
    ensures Encode(Code(h, DUP_FOUR)) == CLASH_BYTES
  {
    ClashLiteral();
    hide Encode, LittleEndian, Code;
    var p3 := DUP_FOUR.rest;
    DupCode(h, End);
    DupCode(h, p3.rest.rest);
    DupCode(h, p3.rest);
    DupCode(h, p3);
    EndCode(h);
    assert CLASH_BYTES == [12, 0] + ([12, 0] + ([12, 0] + ([12, 0] + [])));
  }

  lemma ClashLiteral()
    ensures LiteralBytes(CLASH_LITERAL) == CLASH_BYTES && Fits62(CLASH_LITERAL)
  {
    hide FromLittleEndian, LittleEndian;
    var low: seq<Byte> := [12, 0, 12, 0, 12, 0, 12];
    assert CLASH_BYTES == low + [0];
    FromLittleEndianSnoc(low, 0);
    FromLittleEndianBound(low);
    LittleEndianOfBytes(CLASH_BYTES);
    Pow256At8();
    assert Pow256(8) == 256 * Pow256(7);
  }

  lemma EndCode(h: Hash)
    ensures Encode(Code(h, End)) == []
  {
  }

  lemma DupCode(h: Hash, rest: Prog)
    ensures Encode(Code(h, Then(Prim(P.DUP), rest))) == [12, 0] + Encode(Code(h, rest))
  {
    EncodeCons(Op(P.DUP), Code(h, rest));
    assert CodeStmt(h, Prim(P.DUP)) == [Op(P.DUP)];
    assert EncodeItem(Op(P.DUP)) == [12, 0];
  }

  // ----- What compiling leaves behind can be linked -----

  /** A reference is to one of the records, with the kind it says. */
  ghost predicate Covered(h: Hash, rs: seq<Record>, x: Item) {
    x.Ref? ==> exists j | 0 <= j < |rs| :: Answers(h, rs[j], x)
  }

  predicate Answers(h: Hash, r: Record, x: Item)
    requires x.Ref?
  {
    h(r.data) == x.cid && r.kind == x.kind && (r.kind == KIND_DATA ==> |r.data| == 8)
  }

  ghost predicate CoveredAll(h: Hash, rs: seq<Record>, xs: seq<Item>) {
    forall k | 0 <= k < |xs| :: Covered(h, rs, xs[k])
  }

  /** Every word in the list refers only to records before it. */
  ghost predicate Closed(h: Hash, rs: seq<Record>) {
    TwoKinds(rs) && forall i | 0 <= i < |rs| && rs[i].kind == KIND_WORD :: ClosedAt(h, rs, i)
  }

  ghost predicate ClosedAt(h: Hash, rs: seq<Record>, i: nat)
    requires i < |rs|
  {
    Parse(rs[i].data).Some? && CoveredAll(h, rs[..i], Parse(rs[i].data).value)
  }

  lemma CoveredMore(h: Hash, rs: seq<Record>, ts: seq<Record>, xs: seq<Item>)
    requires CoveredAll(h, rs, xs) && (forall i | 0 <= i < |rs| :: rs[i] in ts)
    ensures CoveredAll(h, ts, xs)
  {
    forall k | 0 <= k < |xs|
      ensures Covered(h, ts, xs[k])
    {
      assert Covered(h, rs, xs[k]);
      if xs[k].Ref? {
        var j :| 0 <= j < |rs| && Answers(h, rs[j], xs[k]);
        var i :| 0 <= i < |ts| && ts[i] == rs[j];
        assert Answers(h, ts[i], xs[k]);
      }
    }
  }

  lemma ClosedConcat(h: Hash, rs: seq<Record>, ts: seq<Record>)
    requires Closed(h, rs) && Closed(h, ts)
    ensures Closed(h, rs + ts)
  {
    var all := rs + ts;
    forall i | 0 <= i < |all| && all[i].kind == KIND_WORD
      ensures ClosedAt(h, all, i)
    {
      if i < |rs| {
        assert ClosedAt(h, rs, i);
        assert all[..i] == rs[..i];
      } else {
        assert ClosedAt(h, ts, i - |rs|);
        assert all[..i] == rs + ts[..i - |rs|];
        CoveredMore(h, ts[..i - |rs|], all[..i], Parse(all[i].data).value);
      }
    }
  }

  /** The records of a program are closed and answer every reference of its code. */
  lemma {:induction false} RecordsClosed(h: Hash, p: Prog)
    requires Structured(p)
    ensures Closed(h, Records(h, p)) && CoveredAll(h, Records(h, p), Code(h, p))
    decreases p, 0
  {
    match p
    case End =>
    case Then(s, rest) =>
      RecordsStmtClosed(h, s);
      RecordsClosed(h, rest);
      var rs, ts := RecordsStmt(h, s), Records(h, rest);
      ClosedConcat(h, rs, ts);
      CoveredMore(h, rs, rs + ts, CodeStmt(h, s));
      CoveredMore(h, ts, rs + ts, Code(h, rest));
  }

  lemma {:induction false} RecordsStmtClosed(h: Hash, s: Stmt)
    requires StructuredStmt(s)
    ensures Closed(h, RecordsStmt(h, s)) && CoveredAll(h, RecordsStmt(h, s), CodeStmt(h, s))
    decreases s, 1
  {
    match s
    case Lit(n) =>
      assert Answers(h, RecordsStmt(h, s)[0], CodeStmt(h, s)[0]);
    case Prim(_) =>
    case Call(body) =>
      RecordsClosed(h, body);
      CallClosed(h, body);
    case If(yes, no) =>
      RecordsClosed(h, yes);
      RecordsClosed(h, no);
      TwoParts(h, Records(h, yes), Records(h, no), Code(h, yes), Code(h, no));
    case Times(body) =>
      RecordsClosed(h, body);
    case Until(cond, body) =>
      RecordsClosed(h, cond);
      RecordsClosed(h, body);
      TwoParts(h, Records(h, cond), Records(h, body), Code(h, cond), Code(h, body));
  }

  lemma TwoParts(h: Hash, rs: seq<Record>, ts: seq<Record>, xs: seq<Item>, ys: seq<Item>)
    requires Closed(h, rs) && Closed(h, ts) && CoveredAll(h, rs, xs) && CoveredAll(h, ts, ys)
    ensures Closed(h, rs + ts) && CoveredAll(h, rs + ts, xs) && CoveredAll(h, rs + ts, ys)
  {
    ClosedConcat(h, rs, ts);
    CoveredMore(h, rs, rs + ts, xs);
    CoveredMore(h, ts, rs + ts, ys);
  }

  lemma CallClosed(h: Hash, body: Prog)
    requires Structured(body)
    requires Closed(h, Records(h, body)) && CoveredAll(h, Records(h, body), Code(h, body))
    ensures Closed(h, RecordsStmt(h, Call(body)))
    ensures CoveredAll(h, RecordsStmt(h, Call(body)), CodeStmt(h, Call(body)))
  {
    hide Encode, Parse, Code;
    var rs, word := Records(h, body), Record(KIND_WORD, Encode(Code(h, body)));
    var all := rs + [word];
    CodeIsValid(h, body);
    ParseEncode(Code(h, body));
    forall i | 0 <= i < |all| && all[i].kind == KIND_WORD
      ensures ClosedAt(h, all, i)
    {
      assert all[..i] == rs[..i];
      if i < |rs| {
        assert ClosedAt(h, rs, i);
      } else {
        assert rs[..i] == rs;
      }
    }
    assert Answers(h, all[|rs|], Ref(KIND_WORD, h(Encode(Code(h, body)))));
  }

  /** The position of the first record under a CID. */
  function FirstAt(h: Hash, rs: seq<Record>, cid: Cid): (i: nat)
    ensures i <= |rs| && (i < |rs| ==> h(rs[i].data) == cid)
    ensures forall j | 0 <= j < i :: h(rs[j].data) != cid
  {
    if rs == [] then 0
    else if h(rs[0].data) == cid then 0
    else
      var i := FirstAt(h, rs[1..], cid);
      assert forall j | 0 < j < 1 + i :: rs[j] == rs[1..][j - 1];
      1 + i
  }

  function OrderOf(h: Hash, rs: seq<Record>): (rank: Rank)
    ensures forall cid :: cid in rank ==> rank[cid] == FirstAt(h, rs, cid)
    ensures forall i | 0 <= i < |rs| :: h(rs[i].data) in rank
  {
    map i | 0 <= i < |rs| :: h(rs[i].data) := FirstAt(h, rs, h(rs[i].data))
  }

  /** A session's database is what the linker takes for granted: no cycles, and every
      reference of the right kind. */
  lemma SessionStoreIsGood(h: Hash, rs: seq<Record>)
    requires Closed(h, rs) && Agree(h, map[], rs)
    ensures GoodStore(PutAll(h, map[], rs), OrderOf(h, rs))
    ensures forall cid | cid in PutAll(h, map[], rs) && IsCode(PutAll(h, map[], rs)[cid].kind) ::
      NothingDangles(PutAll(h, map[], rs), cid)
  {
    var db, rank := PutAll(h, map[], rs), OrderOf(h, rs);
    forall cid | cid in db && IsCode(db[cid].kind)
      ensures GoodBlob(db, rank, cid) && NothingDangles(db, cid)
    {
      SessionBlobIsGood(h, rs, cid);
    }
  }

  /** Every reference of a blob leads to a record. */
  ghost predicate NothingDangles(db: Store, cid: Cid)
    requires cid in db
  {
    Parse(db[cid].data).Some? &&
    forall k | 0 <= k < |Parse(db[cid].data).value| :: Resolvable(db, Parse(db[cid].data).value[k])
  }

  predicate Resolvable(db: Store, x: Item) {
    x.Ref? ==> x.kind <= KIND_DATA && x.cid in db && (IsCode(db[x.cid].kind) || db[x.cid].kind == KIND_DATA)
  }

  lemma SessionBlobIsGood(h: Hash, rs: seq<Record>, cid: Cid)
    requires Closed(h, rs) && Agree(h, map[], rs)
    requires cid in PutAll(h, map[], rs) && IsCode(PutAll(h, map[], rs)[cid].kind)
    ensures GoodBlob(PutAll(h, map[], rs), OrderOf(h, rs), cid)
    ensures NothingDangles(PutAll(h, map[], rs), cid)
  {
    hide Parse, PutAll;
    var db, rank := PutAll(h, map[], rs), OrderOf(h, rs);
    StoredIffAgree(h, map[], rs);
    PutAllOnly(h, map[], rs, cid);
    var i := FirstAt(h, rs, cid);
    assert HasRecord(db, h, rs[i]);
    assert ClosedAt(h, rs, i);
    var xs := Parse(db[cid].data).value;
    forall k | 0 <= k < |xs|
      ensures RefOk(db, rank, cid, xs[k]) && Resolvable(db, xs[k])
    {
      assert Covered(h, rs[..i], xs[k]);
      if xs[k].Ref? {
        var j :| 0 <= j < |rs[..i]| && Answers(h, rs[..i][j], xs[k]);
        assert HasRecord(db, h, rs[j]);
      }
    }
  }

  // ----- And nothing is missing -----

  predicate Registered(table: map<U16, Word>, xs: seq<Item>) {
    forall k | 0 <= k < |xs| :: xs[k].Op? ==> xs[k].id in table
  }

  ghost predicate RegisteredAll(table: map<U16, Word>, rs: seq<Record>) {
    forall i | 0 <= i < |rs| && rs[i].kind == KIND_WORD ::
      Parse(rs[i].data).Some? ==> Registered(table, Parse(rs[i].data).value)
  }

  /** With every primitive in the dispatch table, every CID of the session links. */
  lemma {:induction false} SessionResolves(h: Hash, rs: seq<Record>, table: map<U16, Word>, cid: Cid)
    requires Closed(h, rs) && Agree(h, map[], rs) && RegisteredAll(table, rs)
    requires GoodStore(PutAll(h, map[], rs), OrderOf(h, rs))
    requires cid in PutAll(h, map[], rs)
    ensures Resolves(PutAll(h, map[], rs), table, OrderOf(h, rs), cid)
    decreases RankOf(OrderOf(h, rs), cid)
  {
    hide Parse, PutAll;
    var db, rank := PutAll(h, map[], rs), OrderOf(h, rs);
    PutAllOnly(h, map[], rs, cid);
    if IsCode(db[cid].kind) {
      SessionBlobIsGood(h, rs, cid);
      var xs := Parse(db[cid].data).value;
      forall k | 0 <= k < |xs|
        ensures ItemResolves(db, table, rank, cid, xs[k])
      {
        assert RefOk(db, rank, cid, xs[k]) && Resolvable(db, xs[k]);
        if xs[k].Ref? {
          SessionResolves(h, rs, table, xs[k].cid);
        }
      }
    }
  }

  /** The primitives the control words emit. */
  const CONTROL: set<U16> := {P.TOR, P.FROMR, P.RFETCH, P.RDROP, P.SUB, P.BRANCH, P.ZBRANCH}

  predicate Uses(table: map<U16, Word>, p: Prog) {
    match p
    case End => true
    case Then(s, rest) => UsesStmt(table, s) && Uses(table, rest)
  }

  /** Every primitive a program names is in the dispatch table. */
  predicate UsesStmt(table: map<U16, Word>, s: Stmt) {
    match s
    case Lit(_) => true
    case Prim(id) => id in table
    case Call(body) => Uses(table, body)
    case If(yes, no) => Uses(table, yes) && Uses(table, no)
    case Times(body) => Uses(table, body)
    case Until(cond, body) => Uses(table, cond) && Uses(table, body)
  }

  predicate Plain(ids: set<nat>) {
    forall id | id in ids :: 1 <= id < 256 && id != 40 && id != 41 && id != 42
  }

  /** What the two conditions on a word say of the primitives it names. */
  lemma {:induction false} ConditionsByNames(table: map<U16, Word>, p: Prog)
    ensures Structured(p) <==> Plain(Names(p))
    ensures Uses(table, p) <==> forall id | id in Names(p) :: id in table
    decreases p, 0
  {
    if p.Then? {
      StmtConditionsByNames(table, p.first);
      ConditionsByNames(table, p.rest);
      assert Names(p) == NamesOf(p.first) + Names(p.rest);
    }
  }

  lemma {:induction false} StmtConditionsByNames(table: map<U16, Word>, s: Stmt)
    ensures StructuredStmt(s) <==> Plain(NamesOf(s))
    ensures UsesStmt(table, s) <==> forall id | id in NamesOf(s) :: id in table
    decreases s, 1
  {
    match s
    case Lit(_) =>
    case Prim(id) => assert id in NamesOf(s);
    case Call(body) => ConditionsByNames(table, body);
    case If(yes, no) =>
      ConditionsByNames(table, yes);
      ConditionsByNames(table, no);
    case Times(body) => ConditionsByNames(table, body);
    case Until(cond, body) =>
      ConditionsByNames(table, cond);
      ConditionsByNames(table, body);
  }

  lemma {:induction false} CodeRegistered(h: Hash, table: map<U16, Word>, p: Prog)
    requires Structured(p) && Uses(table, p) && CONTROL <= table.Keys
    ensures Registered(table, Code(h, p)) && RegisteredAll(table, Records(h, p))
    decreases p, 0
  {
    match p
    case End =>
    case Then(s, rest) =>
      hide Parse;
      StmtRegistered(h, table, s);
      CodeRegistered(h, table, rest);
  }

  lemma {:induction false} StmtRegistered(h: Hash, table: map<U16, Word>, s: Stmt)
    requires StructuredStmt(s) && UsesStmt(table, s) && CONTROL <= table.Keys
    ensures Registered(table, CodeStmt(h, s)) && RegisteredAll(table, RecordsStmt(h, s))
    decreases s, 1
  {
    hide Parse, Encode, LiteralBytes, Registered, RegisteredAll, Code, Records;
    match s
    case Lit(_) => LeafRegistered(h, table, s);
    case Prim(_) => LeafRegistered(h, table, s);
    case Call(body) =>
      CodeRegistered(h, table, body);
      CallRegistered(h, table, body);
    case If(yes, no) =>
      CodeRegistered(h, table, yes);
      CodeRegistered(h, table, no);
      RegisteredBoth(table, Records(h, yes), Records(h, no));
      IfRegistered(table, Code(h, yes), Code(h, no));
    case Times(body) =>
      CodeRegistered(h, table, body);
      TimesRegistered(table, Code(h, body));
    case Until(cond, body) =>
      CodeRegistered(h, table, cond);
      CodeRegistered(h, table, body);
      RegisteredBoth(table, Records(h, cond), Records(h, body));
      UntilRegistered(table, Code(h, cond), Code(h, body));
  }

  lemma LeafRegistered(h: Hash, table: map<U16, Word>, s: Stmt)
    requires (s.Lit? || s.Prim?) && UsesStmt(table, s)
    ensures Registered(table, CodeStmt(h, s)) && RegisteredAll(table, RecordsStmt(h, s))
  {
  }

  lemma CallRegistered(h: Hash, table: map<U16, Word>, body: Prog)
    requires Structured(body)
    requires Registered(table, Code(h, body)) && RegisteredAll(table, Records(h, body))
    ensures Registered(table, CodeStmt(h, Call(body))) && RegisteredAll(table, RecordsStmt(h, Call(body)))
  {
    hide Parse, Encode, Code;
    CodeIsValid(h, body);
    ParseEncode(Code(h, body));
  }

  lemma RegisteredBoth(table: map<U16, Word>, rs: seq<Record>, ts: seq<Record>)
    requires RegisteredAll(table, rs) && RegisteredAll(table, ts)
    ensures RegisteredAll(table, rs + ts)
  {
    hide Parse;
  }

  lemma IfRegistered(table: map<U16, Word>, yes: seq<Item>, no: seq<Item>)
    requires Registered(table, yes) && Registered(table, no) && CONTROL <= table.Keys
    ensures Registered(table, IfCode(yes, no))
  {
  }

  lemma TimesRegistered(table: map<U16, Word>, body: seq<Item>)
    requires Registered(table, body) && CONTROL <= table.Keys
    ensures Registered(table, TimesCode(body))
  {
  }

  lemma UntilRegistered(table: map<U16, Word>, cond: seq<Item>, body: seq<Item>)
    requires Registered(table, cond) && Registered(table, body) && CONTROL <= table.Keys
    ensures Registered(table, UntilCode(cond, body))
  {
  }

  /** Records that are all in the store make the program stored. */
  lemma {:induction false} StoredFromRecords(h: Hash, db: Store, p: Prog)
    requires AllStored(h, db, Records(h, p))
    ensures Stored(db, h, p)
    decreases p, 0
  {
    match p
    case End =>
    case Then(s, rest) =>
      var rs, ts := RecordsStmt(h, s), Records(h, rest);
      BothStored(h, db, rs, ts);
      StmtStoredFromRecords(h, db, s);
      StoredFromRecords(h, db, rest);
  }

  lemma {:induction false} StmtStoredFromRecords(h: Hash, db: Store, s: Stmt)
    requires AllStored(h, db, RecordsStmt(h, s))
    ensures StoredStmt(db, h, s)
    decreases s, 1
  {
    hide Encode, LiteralBytes, Code;
    match s
    case Lit(n) => assert HasRecord(db, h, RecordsStmt(h, s)[0]);
    case Prim(_) =>
    case Call(body) =>
      var rs := Records(h, body);
      BothStored(h, db, rs, [Record(KIND_WORD, Encode(Code(h, body)))]);
      StoredFromRecords(h, db, body);
      assert HasRecord(db, h, RecordsStmt(h, s)[|rs|]);
    case If(yes, no) =>
      BothStored(h, db, Records(h, yes), Records(h, no));
      StoredFromRecords(h, db, yes);
      StoredFromRecords(h, db, no);
    case Times(body) => StoredFromRecords(h, db, body);
    case Until(cond, body) =>
      BothStored(h, db, Records(h, cond), Records(h, body));
      StoredFromRecords(h, db, cond);
      StoredFromRecords(h, db, body);
  }

  lemma BothStored(h: Hash, db: Store, rs: seq<Record>, ts: seq<Record>)
    requires AllStored(h, db, rs + ts)
    ensures AllStored(h, db, rs) && AllStored(h, db, ts)
  {
    forall i | 0 <= i < |rs|
      ensures HasRecord(db, h, rs[i])
    {
      assert HasRecord(db, h, (rs + ts)[i]);
    }
    forall i | 0 <= i < |ts|
      ensures HasRecord(db, h, ts[i])
    {
      assert HasRecord(db, h, (rs + ts)[|rs| + i]);
    }
  }
}
