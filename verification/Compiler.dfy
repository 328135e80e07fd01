/** Emission of compiled code (src/compiler.c): literals, primitives, calls and the
    three inlining control words, with branch offsets taken from cell counts. */
module Compiler {
  import opened Words
  import opened Blob
  import opened Language
  import P = Primitives

  /** What the database keeps under a CID. */
  datatype Record = Record(kind: U16, data: seq<Byte>)

  /** SHA-256 of a blob's bytes. The kind of the blob is not hashed. */
  type Hash = seq<Byte> -> Cid

  type Store = map<Cid, Record>

  /** INSERT OR IGNORE: the first record under a CID stays. */
  function Put(h: Hash, db: Store, r: Record): Store {
    if h(r.data) in db then db else db[h(r.data) := r]
  }

  function PutAll(h: Hash, db: Store, rs: seq<Record>): Store
    decreases rs
  {
    if rs == [] then db else PutAll(h, Put(h, db, rs[0]), rs[1..])
  }

  lemma {:induction false} PutAllConcat(h: Hash, db: Store, rs: seq<Record>, ts: seq<Record>)
    ensures PutAll(h, db, rs + ts) == PutAll(h, PutAll(h, db, rs), ts)
    decreases rs
  {
    if rs == [] {
      assert rs + ts == ts;
    } else {
      PutAllConcat(h, Put(h, db, rs[0]), rs[1..], ts);
      assert (rs + ts)[1..] == rs[1..] + ts;
    }
  }

  /** A C conversion to int64_t. */
  function ToInt64(n: int): Int64 {
    Signed(ToWord(n))
  }

  function LiteralBytes(n: Int64): seq<Byte> {
    LittleEndian(ToWord(n), 8)
  }

  // ----- The code of a program, item by item -----

  function Code(h: Hash, p: Prog): seq<Item>
    decreases p, 0
  {
    match p
    case End => []
    case Then(s, rest) => CodeStmt(h, s) + Code(h, rest)
  }

  function CodeStmt(h: Hash, s: Stmt): seq<Item>
    decreases s, 1
  {
    match s
    case Lit(n) => [Ref(KIND_DATA, h(LiteralBytes(n)))]
    case Prim(id) => [Op(id)]
    case Call(body) => [Ref(KIND_WORD, h(Encode(Code(h, body))))]
    case If(yes, no) => IfCode(Code(h, yes), Code(h, no))
    case Times(body) => TimesCode(Code(h, body))
    case Until(cond, body) => UntilCode(Code(h, cond), Code(h, body))
  }

  function IfCode(yes: seq<Item>, no: seq<Item>): seq<Item> {
    [Op(P.ZBRANCH), Inline(ToInt64(|yes| + 2))] + yes
      + [Op(P.BRANCH), Inline(ToInt64(|no|))] + no
  }

  function TimesCode(body: seq<Item>): seq<Item> {
    TimesHead(|body|) + body + TimesTail(|body|)
  }

  function TimesHead(n: nat): seq<Item> {
    [Op(P.TOR), Op(P.RFETCH), Op(P.ZBRANCH), Inline(ToInt64(n + 6)),
     Op(P.FROMR), Inline(1), Op(P.SUB), Op(P.TOR)]
  }

  function TimesTail(n: nat): seq<Item> {
    [Op(P.BRANCH), Inline(ToInt64(-(n + 9))), Op(P.RDROP)]
  }

  function UntilCode(cond: seq<Item>, body: seq<Item>): seq<Item> {
    body + cond + [Op(P.ZBRANCH), Inline(ToInt64(-(|body| + |cond| + 2)))]
  }

  /** The blobs compiling a program hands to the database, in order. */
  function Records(h: Hash, p: Prog): seq<Record>
    decreases p, 0
  {
    match p
    case End => []
    case Then(s, rest) => RecordsStmt(h, s) + Records(h, rest)
  }

  function RecordsStmt(h: Hash, s: Stmt): seq<Record>
    decreases s, 1
  {
    match s
    case Lit(n) => [Record(KIND_DATA, LiteralBytes(n))]
    case Prim(_) => []
    case Call(body) => Records(h, body) + [Record(KIND_WORD, Encode(Code(h, body)))]
    case If(yes, no) => Records(h, yes) + Records(h, no)
    case Times(body) => Records(h, body)
    case Until(cond, body) => Records(h, cond) + Records(h, body)
  }

  // ----- Emitting piece by piece is emitting the whole -----

  lemma Regroup(done: seq<Item>, xs: seq<Item>, ys: seq<Item>)
    ensures done + xs + ys == done + (xs + ys)
  {
  }

  lemma IfRegroup(done: seq<Item>, yes: seq<Item>, no: seq<Item>)
    ensures done + [Op(P.ZBRANCH)] + [Inline(ToInt64(|yes| + 2))] + yes
      + [Op(P.BRANCH)] + [Inline(ToInt64(|no|))] + no == done + IfCode(yes, no)
  {
  }

  lemma UntilRegroup(done: seq<Item>, cond: seq<Item>, body: seq<Item>)
    ensures done + body + cond + [Op(P.ZBRANCH)]
      + [Inline(ToInt64(-(|body| + |cond| + 2)))] == done + UntilCode(cond, body)
  {
  }

  /** The part of compiler_t that emission works on. */
  class Emitter {
    const hash: Hash
    var db: Store
    var blob: BlobBuffer
    var cellCount: nat         // length of the legacy cell buffer
    ghost var items: seq<Item> // what has been emitted since the buffers were cleared

    /** The counting invariant: the blob spells the emitted items and the cell buffer
        holds one cell for each. */
    ghost predicate Valid()
      reads this, blob
    {
      blob.data == Encode(items) && cellCount == |items|
    }

    constructor (hash: Hash, db: Store)
      ensures Valid() && fresh(blob) && items == [] && this.hash == hash && this.db == db
    {
      this.hash, this.db := hash, db;
      blob := new BlobBuffer();
      cellCount, items := 0, [];
    }

    method StoreBlob(kind: U16, data: seq<Byte>) returns (cid: Cid)
      modifies this`db
      ensures cid == hash(data)
      ensures db == Put(hash, old(db), Record(kind, data))
      ensures db == if cid in old(db) then old(db) else old(db)[cid := Record(kind, data)]
    {
      cid := hash(data);
      if cid !in db {
        db := db[cid := Record(kind, data)];
      }
    }

    method StoreLiteral(value: Int64) returns (cid: Cid)
      modifies this`db
      ensures cid == hash(LiteralBytes(value))
      ensures db == Put(hash, old(db), Record(KIND_DATA, LiteralBytes(value)))
    {
      var data := LittleEndianBytes(value);
      cid := StoreBlob(KIND_DATA, data);
    }

    method EmitPrimitive(id: U16)
      requires Valid()
      modifies this`cellCount, this`items, blob
      ensures Valid() && items == old(items) + [Op(id)]
    {
      EncodeConcat(items, [Op(id)]);
      cellCount := cellCount + 1;
      blob.EncodePrimitive(id);
      items := items + [Op(id)];
    }

    method EmitInline(value: Int64)
      requires Valid()
      modifies this`cellCount, this`items, blob
      ensures Valid() && items == old(items) + [Inline(value)]
    {
      EncodeConcat(items, [Inline(value)]);
      cellCount := cellCount + 1;
      blob.EncodeInlineLiteral(value);
      items := items + [Inline(value)];
    }

    method EmitRef(kind: U16, cid: Cid)
      requires Valid()
      modifies this`cellCount, this`items, blob
      ensures Valid() && items == old(items) + [Ref(kind, cid)]
    {
      EncodeConcat(items, [Ref(kind, cid)]);
      cellCount := cellCount + 1;
      blob.EncodeCidRef(kind, cid);
      items := items + [Ref(kind, cid)];
    }

    /** Inlining a compiled quotation: all of its blob, and its cells without the EXIT. */
    method Splice(cells: nat, bytes: seq<Byte>, ghost code: seq<Item>)
      requires Valid() && cells == |code| + 1 && bytes == Encode(code)
      modifies this`cellCount, this`items, blob
      ensures Valid() && items == old(items) + code
    {
      EncodeConcat(items, code);
      for i := 0 to cells - 1
        invariant cellCount == old(cellCount) + i
        modifies this`cellCount
      {
        cellCount := cellCount + 1;
      }
      blob.AppendBytes(bytes);
      items := items + code;
    }

    /** quot_compile_with_context: compile into fresh buffers and put the old ones back. */
    method CompileQuotation(p: Prog) returns (cells: nat, bytes: seq<Byte>)
      requires Valid()
      modifies this
      ensures Valid() && blob == old(blob) && items == old(items) && blob.data == old(blob.data)
      ensures cells == |Code(hash, p)| + 1 && bytes == Encode(Code(hash, p))
      ensures db == PutAll(hash, old(db), Records(hash, p))
      decreases p, 2
    {
      var savedBlob, savedCount := blob, cellCount;
      ghost var savedItems := items;
      blob := new BlobBuffer();
      cellCount, items := 0, [];
      Compile(p);
      assert [] + Code(hash, p) == Code(hash, p);
      cells, bytes := cellCount + 1, blob.data;  // the EXIT has a cell but no tag
      blob, cellCount := savedBlob, savedCount;
      items := savedItems;
    }

    /** The token loop. */
    method Compile(p: Prog)
      requires Valid()
      modifies this, blob
      ensures Valid() && blob == old(blob)
      ensures items == old(items) + Code(hash, p)
      ensures db == PutAll(hash, old(db), Records(hash, p))
      decreases p, 1
    {
      var todo := p;
      ghost var was := db;
      while todo.Then?
        invariant Valid() && blob == old(blob)
        invariant items + Code(hash, todo) == old(items) + Code(hash, p)
        invariant PutAll(hash, db, Records(hash, todo)) == PutAll(hash, was, Records(hash, p))
        invariant todo == p || todo < p
        decreases todo
      {
        PutAllConcat(hash, db, RecordsStmt(hash, todo.first), Records(hash, todo.rest));
        Regroup(items, CodeStmt(hash, todo.first), Code(hash, todo.rest));
        CompileStmt(todo.first);
        todo := todo.rest;
      }
    }

    method CompileStmt(s: Stmt)
      requires Valid()
      modifies this, blob
      ensures Valid() && blob == old(blob)
      ensures items == old(items) + CodeStmt(hash, s)
      ensures db == PutAll(hash, old(db), RecordsStmt(hash, s))
      decreases s, 4
    {
      match s
      case Lit(n) =>
        var cid := StoreLiteral(n);
        EmitRef(KIND_DATA, cid);
      case Prim(id) =>
        EmitPrimitive(id);
      case Call(body) =>
        CompileCall(body);
      case If(yes, no) =>
        CompileIf(yes, no);
      case Times(body) =>
        CompileTimes(body);
      case Until(cond, body) =>
        CompileTimesUntil(cond, body);
    }

    /** A word is compiled for its argument types when it is called, stored, and referred to. */
    method CompileCall(body: Prog)
      requires Valid()
      modifies this, blob
      ensures Valid() && blob == old(blob)
      ensures items == old(items) + CodeStmt(hash, Call(body))
      ensures db == PutAll(hash, old(db), RecordsStmt(hash, Call(body)))
      decreases body, 3
    {
      var _, bytes := CompileQuotation(body);
      PutAllConcat(hash, old(db), Records(hash, body), [Record(KIND_WORD, bytes)]);
      var cid := StoreBlob(KIND_WORD, bytes);
      EmitRef(KIND_WORD, cid);
    }

    method CompileIf(yes: Prog, no: Prog)
      requires Valid()
      modifies this, blob
      ensures Valid() && blob == old(blob)
      ensures items == old(items) + CodeStmt(hash, If(yes, no))
      ensures db == PutAll(hash, old(db), RecordsStmt(hash, If(yes, no)))
      decreases If(yes, no), 3
    {
      hide Encode;
      var yesCells, yesBytes := CompileQuotation(yes);
      var noCells, noBytes := CompileQuotation(no);
      PutAllConcat(hash, old(db), Records(hash, yes), Records(hash, no));
      EmitIf(yesCells, yesBytes, Code(hash, yes), noCells, noBytes, Code(hash, no));
    }

    method EmitIf(yesCells: nat, yesBytes: seq<Byte>, ghost yes: seq<Item>,
                  noCells: nat, noBytes: seq<Byte>, ghost no: seq<Item>)
      requires Valid()
      requires yesCells == |yes| + 1 && yesBytes == Encode(yes)
      requires noCells == |no| + 1 && noBytes == Encode(no)
      modifies this`cellCount, this`items, blob
      ensures Valid() && items == old(items) + IfCode(yes, no)
    {
      hide Encode;
      EmitPrimitive(P.ZBRANCH);
      EmitInline(ToInt64(yesCells - 1 + 2));
      Splice(yesCells, yesBytes, yes);
      EmitPrimitive(P.BRANCH);
      EmitInline(ToInt64(noCells - 1));
      Splice(noCells, noBytes, no);
      IfRegroup(old(items), yes, no);
    }

    method CompileTimes(body: Prog)
      requires Valid()
      modifies this, blob
      ensures Valid() && blob == old(blob)
      ensures items == old(items) + CodeStmt(hash, Times(body))
      ensures db == PutAll(hash, old(db), RecordsStmt(hash, Times(body)))
      decreases Times(body), 3
    {
      hide Encode;
      var cells, bytes := CompileQuotation(body);
      EmitTimes(cells, bytes, Code(hash, body));
    }

    method EmitTimes(cells: nat, bytes: seq<Byte>, ghost code: seq<Item>)
      requires Valid() && cells == |code| + 1 && bytes == Encode(code)
      modifies this`cellCount, this`items, blob
      ensures Valid() && items == old(items) + TimesCode(code)
    {
      hide Encode;
      EmitTimesHead(cells);
      Splice(cells, bytes, code);
      EmitTimesTail(cells);
      Regroup(old(items), TimesHead(|code|), code);
      Regroup(old(items), TimesHead(|code|) + code, TimesTail(|code|));
    }

    /** Counter to the return stack; loop start; leave when it is zero; count down. */
    method EmitTimesHead(cells: nat)
      requires Valid() && cells > 0
      modifies this`cellCount, this`items, blob
      ensures Valid() && items == old(items) + TimesHead(cells - 1)
    {
      hide Encode;
      EmitPrimitive(P.TOR);
      EmitPrimitive(P.RFETCH);
      EmitPrimitive(P.ZBRANCH);
      EmitInline(ToInt64(cells - 1 + 6));
      EmitPrimitive(P.FROMR);
      EmitInline(1);
      EmitPrimitive(P.SUB);
      EmitPrimitive(P.TOR);
    }

    /** Back to the loop start; drop the counter. */
    method EmitTimesTail(cells: nat)
      requires Valid() && cells > 0
      modifies this`cellCount, this`items, blob
      ensures Valid() && items == old(items) + TimesTail(cells - 1)
    {
      hide Encode;
      var bodyCells: int := cells - 1;
      EmitPrimitive(P.BRANCH);
      EmitInline(ToInt64(-(1 + 1 + 1 + 1 + 1 + 1 + 1 + bodyCells + 1 + 1)));
      EmitPrimitive(P.RDROP);
    }

    method CompileTimesUntil(cond: Prog, body: Prog)
      requires Valid()
      modifies this, blob
      ensures Valid() && blob == old(blob)
      ensures items == old(items) + CodeStmt(hash, Until(cond, body))
      ensures db == PutAll(hash, old(db), RecordsStmt(hash, Until(cond, body)))
      decreases Until(cond, body), 3
    {
      hide Encode;
      var condCells, condBytes := CompileQuotation(cond);
      var bodyCells, bodyBytes := CompileQuotation(body);
      PutAllConcat(hash, old(db), Records(hash, cond), Records(hash, body));
      EmitUntil(condCells, condBytes, Code(hash, cond), bodyCells, bodyBytes, Code(hash, body));
    }

    method EmitUntil(condCells: nat, condBytes: seq<Byte>, ghost cond: seq<Item>,
                     bodyCells: nat, bodyBytes: seq<Byte>, ghost body: seq<Item>)
      requires Valid()
      requires condCells == |cond| + 1 && condBytes == Encode(cond)
      requires bodyCells == |body| + 1 && bodyBytes == Encode(body)
      modifies this`cellCount, this`items, blob
      ensures Valid() && items == old(items) + UntilCode(cond, body)
    {
      hide Encode;
      Splice(bodyCells, bodyBytes, body);
      Splice(condCells, condBytes, cond);
      EmitPrimitive(P.ZBRANCH);
      var back: int := bodyCells - 1 + (condCells - 1) + 1 + 1;
      EmitInline(ToInt64(-back));
      UntilRegroup(old(items), cond, body);
    }
  }
}
