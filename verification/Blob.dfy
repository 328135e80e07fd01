/** The blob format of compiled code (src/cells.c, second half): a byte stream of
    two-byte tags, each followed by nothing, by a literal or by a CID. */
module Blob {
  import opened Words
  import opened Wrappers

  const CID_SIZE: nat := 32
  const PRIM_LIT: nat := 0

  const KIND_PRIMITIVE: nat := 0
  const KIND_WORD: nat := 1
  const KIND_QUOTATION: nat := 2
  const KIND_DATA: nat := 3

  type U16 = t: int | 0 <= t < 65536
  type Cid = c: seq<Byte> | |c| == 32 witness seq(32, _ => 0)

  /** One tag of a blob with what follows it. */
  datatype Item =
    | Op(id: U16)
    | Inline(value: Int64)
    | Ref(kind: U16, cid: Cid)

  /** Ids and kinds survive the shift into a 16-bit tag; id 0 is taken by literals. */
  predicate ValidItem(x: Item) {
    match x
    case Op(id) => 1 <= id < 32768
    case Inline(_) => true
    case Ref(kind, _) => kind < 32768
  }

  predicate ValidItems(xs: seq<Item>) {
    forall i | 0 <= i < |xs| :: ValidItem(xs[i])
  }

  function U16Bytes(t: U16): (bs: seq<Byte>)
    ensures |bs| == 2
  {
    [t % 256, t / 256]
  }

  function TagOf(low: Byte, high: Byte): U16 {
    low as int + 256 * (high as int)
  }

  function EncodeItem(x: Item): (bs: seq<Byte>)
    ensures |bs| >= 2
  {
    match x
    case Op(id) => U16Bytes((2 * id) % 65536)
    case Inline(v) => U16Bytes(0) + LittleEndian(ToWord(v), 8)
    case Ref(kind, cid) => U16Bytes((2 * kind) % 65536 + 1) + cid
  }

  function Encode(xs: seq<Item>): seq<Byte> {
    if xs == [] then [] else EncodeItem(xs[0]) + Encode(xs[1..])
  }

  /** Reads the item at the front; None when the bytes end inside it. */
  function DecodeItem(bs: seq<Byte>): (r: Option<(Item, nat)>)
    ensures r.Some? ==> 2 <= r.value.1 <= |bs|
  {
    if |bs| < 2 then None else
    var tag := TagOf(bs[0], bs[1]);
    if tag % 2 == 1 then
      if |bs| < 2 + CID_SIZE then None
      else Some((Ref(tag / 2, bs[2..2 + CID_SIZE]), 2 + CID_SIZE))
    else if tag / 2 == PRIM_LIT then
      if |bs| < 10 then None
      else
        FromLittleEndianBound(bs[2..10]);
        Pow256At8();
        Some((Inline(Signed(FromLittleEndian(bs[2..10]))), 10))
    else
      Some((Op(tag / 2), 2))
  }

  function Parse(bs: seq<Byte>): Option<seq<Item>> {
    if bs == [] then Some([]) else
    match DecodeItem(bs)
    case None => None
    case Some((x, n)) =>
      match Parse(bs[n..])
      case None => None
      case Some(xs) => Some([x] + xs)
  }

  /** Decoding reads back an encoded item, whatever follows it, exactly when it is valid. */
  lemma DecodeEncodeItem(x: Item, rest: seq<Byte>)
    requires ValidItem(x)
    ensures DecodeItem(EncodeItem(x) + rest) == Some((x, |EncodeItem(x)|))
  {
    hide DecodeItem, LittleEndian;
    match x
    case Op(id) => DecodeEncodeOp(id, rest);
    case Inline(v) => DecodeEncodeInline(v, rest);
    case Ref(kind, cid) => DecodeEncodeRef(kind, cid, rest);
  }

  lemma DecodeEncodeOp(id: U16, rest: seq<Byte>)
    requires 1 <= id < 32768
    ensures DecodeItem(EncodeItem(Op(id)) + rest) == Some((Op(id), 2))
  {
    hide FromLittleEndian;
    TagOfBytes(2 * id, rest);
  }

  lemma DecodeEncodeRef(kind: U16, cid: Cid, rest: seq<Byte>)
    requires kind < 32768
    ensures DecodeItem(EncodeItem(Ref(kind, cid)) + rest) == Some((Ref(kind, cid), 34))
  {
    hide FromLittleEndian;
    var bs := EncodeItem(Ref(kind, cid)) + rest;
    TagOfBytes(2 * kind + 1, cid + rest);
    assert bs == U16Bytes(2 * kind + 1) + (cid + rest);
    assert bs[2..34] == cid;
  }

  lemma TagOfBytes(tag: U16, rest: seq<Byte>)
    ensures var bs := U16Bytes(tag) + rest; TagOf(bs[0], bs[1]) == tag
  {
  }

  lemma DecodeEncodeInline(v: Int64, rest: seq<Byte>)
    ensures DecodeItem(EncodeItem(Inline(v)) + rest) == Some((Inline(v), 10))
  {
    hide LittleEndian, FromLittleEndian;
    var w := ToWord(v);
    var bs := EncodeItem(Inline(v)) + rest;
    assert bs[0] == 0 && bs[1] == 0;
    assert bs[2..10] == LittleEndian(w, 8);
    Pow256At8();
    LittleEndianRoundTrip(w, 8);
    SignedToWord(v);
  }

  /** The other direction: whatever decodes was written by the encoder from a valid item. */
  lemma EncodeDecodeItem(bs: seq<Byte>)
    requires DecodeItem(bs).Some?
    ensures var (x, n) := DecodeItem(bs).value;
      ValidItem(x) && EncodeItem(x) == bs[..n]
  {
    var (x, n) := DecodeItem(bs).value;
    var tag := TagOf(bs[0], bs[1]);
    TagBytes(bs[0], bs[1]);
    assert bs[..2] == [bs[0], bs[1]];
    match x
    case Op(id) =>
      assert tag == (2 * id) % 65536;
    case Inline(v) =>
      EncodeDecodeInline(bs, v);
    case Ref(kind, cid) =>
      assert tag == (2 * kind) % 65536 + 1;
      assert bs[..34] == bs[..2] + bs[2..34];
  }

  lemma TagBytes(low: Byte, high: Byte)
    ensures U16Bytes(TagOf(low, high)) == [low, high]
  {
  }

  lemma EncodeDecodeInline(bs: seq<Byte>, v: Int64)
    requires |bs| >= 10 && bs[0] == bs[1] == 0
    requires DecodeItem(bs) == Some((Inline(v), 10))
    ensures EncodeItem(Inline(v)) == bs[..10]
  {
    var payload := bs[2..10];
    FromLittleEndianBound(payload);
    Pow256At8();
    LittleEndianOfBytes(payload);
    WordOfSigned(FromLittleEndian(payload));
    assert bs[..10] == bs[..2] + payload;
    assert bs[..2] == U16Bytes(0);
  }

  /** Linking a blob sees exactly the items that were emitted into it. */
  lemma {:induction false} ParseEncode(xs: seq<Item>)
    requires ValidItems(xs)
    ensures Parse(Encode(xs)) == Some(xs)
  {
    if xs == [] {
    } else {
      DecodeEncodeItem(xs[0], Encode(xs[1..]));
      var bs := Encode(xs);
      var n := |EncodeItem(xs[0])|;
      assert bs[n..] == Encode(xs[1..]);
      ParseEncode(xs[1..]);
      assert [xs[0]] + xs[1..] == xs;
    }
  }

  lemma EncodeCons(x: Item, xs: seq<Item>)
    ensures Encode([x] + xs) == EncodeItem(x) + Encode(xs)
  {
    assert ([x] + xs)[1..] == xs;
  }

  lemma {:induction false} EncodeParse(bs: seq<Byte>)
    requires Parse(bs).Some?
    ensures ValidItems(Parse(bs).value) && Encode(Parse(bs).value) == bs
  {
    if bs == [] {
    } else {
      EncodeDecodeItem(bs);
      var (x, n) := DecodeItem(bs).value;
      EncodeParse(bs[n..]);
      EncodeParsed(bs, x, n, Parse(bs[n..]).value);
    }
  }

  lemma EncodeParsed(bs: seq<Byte>, x: Item, n: nat, xs: seq<Item>)
    requires 2 <= n <= |bs| && EncodeItem(x) == bs[..n] && Encode(xs) == bs[n..]
    ensures Encode([x] + xs) == bs
  {
    EncodeCons(x, xs);
    assert bs[..n] + bs[n..] == bs;
  }

  /** Equal blobs come from equal item lists. */
  lemma EncodeInjective(xs: seq<Item>, ys: seq<Item>)
    requires ValidItems(xs) && ValidItems(ys) && Encode(xs) == Encode(ys)
    ensures xs == ys
  {
    ParseEncode(xs);
    ParseEncode(ys);
  }

  /** An id or kind outside the 15-bit range is the only way an item fails to read back. */
  lemma ItemReadsBackIffValid(x: Item)
    ensures DecodeItem(EncodeItem(x)) == Some((x, |EncodeItem(x)|)) <==> ValidItem(x)
  {
    if ValidItem(x) {
      DecodeEncodeItem(x, []);
      assert EncodeItem(x) + [] == EncodeItem(x);
    } else if DecodeItem(EncodeItem(x)) == Some((x, |EncodeItem(x)|)) {
      EncodeDecodeItem(EncodeItem(x));
    }
  }

  lemma {:induction false} EncodeConcat(xs: seq<Item>, ys: seq<Item>)
    ensures Encode(xs + ys) == Encode(xs) + Encode(ys)
  {
    if xs == [] {
      assert xs + ys == ys;
    } else {
      assert (xs + ys)[1..] == xs[1..] + ys;
      calc {
        Encode(xs + ys);
        EncodeItem(xs[0]) + Encode(xs[1..] + ys);
        { EncodeConcat(xs[1..], ys); }
        EncodeItem(xs[0]) + (Encode(xs[1..]) + Encode(ys));
        EncodeItem(xs[0]) + Encode(xs[1..]) + Encode(ys);
      }
    }
  }

  lemma EncodeOne(x: Item)
    ensures Encode([x]) == EncodeItem(x)
  {
    assert [x][1..] == [];
  }

  /** The growing byte buffer a word is compiled into. */
  class BlobBuffer {
    var data: seq<Byte>

    constructor ()
      ensures data == []
    {
      data := [];
    }

    method AppendU16(value: U16)
      modifies this
      ensures data == old(data) + U16Bytes(value)
    {
      data := data + [value % 256];
      data := data + [(value / 256) % 256];
    }

    method AppendBytes(bytes: seq<Byte>)
      modifies this
      ensures data == old(data) + bytes
    {
      data := data + bytes;
    }

    method EncodePrimitive(id: U16)
      modifies this
      ensures data == old(data) + Encode([Op(id)])
    {
      EncodeOne(Op(id));
      AppendU16((id * 2) % 65536);
    }

    method EncodeCidRef(kind: U16, cid: Cid)
      modifies this
      ensures data == old(data) + Encode([Ref(kind, cid)])
    {
      EncodeOne(Ref(kind, cid));
      AppendU16((kind * 2) % 65536 + 1);
      AppendBytes(cid);
    }

    method EncodeInlineLiteral(value: Int64)
      modifies this
      ensures data == old(data) + Encode([Inline(value)])
    {
      EncodeOne(Inline(value));
      AppendU16((PRIM_LIT * 2) % 65536);
      var bytes := LittleEndianBytes(value);
      AppendBytes(bytes);
    }
  }

  /** The serialisation loop shared by inline literals and stored literals. */
  method LittleEndianBytes(value: Int64) returns (bytes: seq<Byte>)
    ensures bytes == LittleEndian(ToWord(value), 8)
  {
    bytes := [];
    var shift: int := 1;
    for i := 0 to 8
      invariant shift == Pow256(i)
      invariant bytes == LittleEndian(ToWord(value), i)
    {
      LittleEndianSnoc(ToWord(value), i);
      bytes := bytes + [(ToWord(value) / shift) % 256];
      shift := shift * 256;
    }
  }

  /** Eight payload bytes that spell the value. */
  ghost predicate Carries(bytes: seq<Byte>, value: Int64) {
    |bytes| == 8 && FromLittleEndian(bytes) < TWO_64 && value == Signed(FromLittleEndian(bytes))
  }

  /** The loader's loop that reads a literal back. */
  method ReadLittleEndian(bytes: seq<Byte>) returns (value: Int64)
    requires |bytes| == 8
    ensures Carries(bytes, value)
  {
    var w: nat := 0;
    var shift: int := 1;
    for i := 0 to 8
      invariant shift == Pow256(i)
      invariant w == FromLittleEndian(bytes[..i])
    {
      assert bytes[..i + 1] == bytes[..i] + [bytes[i]];
      FromLittleEndianSnoc(bytes[..i], bytes[i]);
      w := w + shift * bytes[i];
      shift := shift * 256;
    }
    assert bytes[..8] == bytes;
    FromLittleEndianBound(bytes);
    Pow256At8();
    value := Signed(w);
  }

  /** One step of the decoder: where the next tag starts, and what this one holds.
      The bytes must not end inside an item, as the source reads on without looking. */
  method DecodeTagEx(bs: seq<Byte>, ptr: nat)
    returns (isCid: bool, idOrKind: U16, payload: seq<Byte>, next: nat)
    requires ptr <= |bs| && DecodeItem(bs[ptr..]).Some?
    ensures next == ptr + DecodeItem(bs[ptr..]).value.1
    ensures match DecodeItem(bs[ptr..]).value.0
      case Ref(kind, cid) => isCid && idOrKind == kind && payload == cid
      case Op(id) => !isCid && idOrKind == id && id != PRIM_LIT && payload == []
      case Inline(v) => !isCid && idOrKind == PRIM_LIT && Carries(payload, v)
  {
    var tag := TagOf(bs[ptr], bs[ptr + 1]);
    assert bs[ptr..][0] == bs[ptr] && bs[ptr..][1] == bs[ptr + 1];
    next := ptr + 2;
    if tag % 2 == 1 {
      isCid, idOrKind, payload := true, tag / 2, bs[next..next + CID_SIZE];
      assert bs[ptr..][2..34] == payload;
      next := next + CID_SIZE;
    } else {
      isCid, idOrKind := false, tag / 2;
      if idOrKind == PRIM_LIT {
        payload := bs[next..next + 8];
        assert bs[ptr..][2..10] == payload;
        FromLittleEndianBound(payload);
        Pow256At8();
        next := next + 8;
      } else {
        payload := [];
      }
    }
  }
}

/** Optional values. */
module Wrappers {
  datatype Option<+T> = None | Some(value: T)
}
