/** The elements a message is built from and their BER encoding with one-byte lengths
    (X.690 sections 8.1.3, 8.3 and 8.9): sizes are added up in eight bits first, then the bytes are
    written into a buffer of that size. */
module SnmpElem {
  import opened Bytes

  datatype IntegerType = Counter32 | Integer | Counter64 | Ticks

  /** The type byte. */
  function IntegerTag(kind: IntegerType): byte {
    match kind
    case Integer => 0x02
    case Counter32 => 0x41
    case Counter64 => 0x46
    case Ticks => 0x43
  }

  const UINT64: nat := 0x1_0000_0000_0000_0000

  datatype Elem =
    | IntegerElem(kind: IntegerType, v: nat, len: byte)
    | NullElem
    | OctetString(bytes: seq<byte>)
    | Oid(wire: seq<byte>)
    | Sequence(tag: byte, elems: seq<Elem>)

  /** An integer takes four bytes, or eight if it needs more than 32 bits. */
  function NewInteger(kind: IntegerType, v: nat): Elem
    requires v < UINT64
  {
    IntegerElem(kind, v, if v <= 0xffff_ffff then 4 else 8)
  }

  function BigEndian(v: nat, n: nat): seq<byte> {
    if n == 0 then [] else BigEndian(v / 256, n - 1) + [v % 256]
  }

  // ----- the encoding, without any size limit

  function Tag(e: Elem): byte {
    match e
    case IntegerElem(kind, _, _) => IntegerTag(kind)
    case NullElem => 0x05
    case OctetString(_) => 0x04
    case Oid(_) => 0x06
    case Sequence(tag, _) => tag
  }

  function Content(e: Elem): seq<byte>
    decreases e, 0
  {
    match e
    case IntegerElem(_, v, len) => BigEndian(v, len)
    case NullElem => []
    case OctetString(bytes) => bytes
    case Oid(wire) => wire
    case Sequence(_, elems) => EncodeAll(elems)
  }

  function Encode(e: Elem): seq<byte>
    decreases e, 1
  {
    [Tag(e), |Content(e)| % 256] + Content(e)
  }

  function EncodeAll(es: seq<Elem>): seq<byte>
    decreases es
  {
    if es == [] then [] else Encode(es[0]) + EncodeAll(es[1..])
  }

  // ----- sizes in eight bits

  /** The size kept in a leaf's length byte, or added up over a sequence's elements. */
  method GetSize(e: Elem) returns (t: byte)
    ensures t == |Content(e)| % 256
    decreases e
  {
    match e
    case IntegerElem(_, v, len) =>
      BigEndianSize(v, len);
      t := len;
    case NullElem => t := 0;
    case OctetString(bytes) => t := |bytes| % 256;
    case Oid(wire) => t := |wire| % 256;
    case Sequence(_, elems) =>
      t := GetSequenceSize(elems);
  }

  method GetSequenceSize(elems: seq<Elem>) returns (t: byte)
    ensures t == |EncodeAll(elems)| % 256
    decreases elems
  {
    hide Content, EncodeAll;
    t := 0;
    assert elems[..0] == [];
    for i := 0 to |elems|
      invariant t == ContentSum(elems[..i]) % 256
    {
      var s := GetSize(elems[i]);
      SumSnoc(elems, i);
      AddBytes(ContentSum(elems[..i]), |Content(elems[i])|);
      t := (t + s) % 256;
    }
    assert elems[..|elems|] == elems;
    EncodedSize(elems);
    AddBytes(ContentSum(elems), |elems| * 2);
    t := (t + |elems| * 2 % 256) % 256;
  }

  lemma AddBytes(a: nat, b: nat)
    ensures (a % 256 + b % 256) % 256 == (a + b) % 256
  {
    var r, k := a % 256 + b % 256, a / 256 + b / 256;
    assert a + b == r + 256 * k;
    WholeBlocks(r, k);
  }

  lemma WholeBlocks(r: nat, k: nat)
    ensures (r + 256 * k) % 256 == r % 256
  {
  }

  function ContentSum(es: seq<Elem>): nat
    decreases es
  {
    if es == [] then 0 else |Content(es[0])| + ContentSum(es[1..])
  }

  lemma {:induction false} BigEndianSize(v: nat, n: nat)
    ensures |BigEndian(v, n)| == n
    decreases n
  {
    if n != 0 {
      BigEndianSize(v / 256, n - 1);
    }
  }

  lemma {:induction false} SumConcat(a: seq<Elem>, b: seq<Elem>)
    ensures ContentSum(a + b) == ContentSum(a) + ContentSum(b)
    decreases |a|
  {
    if a == [] {
      assert a + b == b;
    } else {
      assert (a + b)[1..] == a[1..] + b;
      SumConcat(a[1..], b);
    }
  }

  lemma SumSnoc(es: seq<Elem>, i: nat)
    requires i < |es|
    ensures ContentSum(es[..i + 1]) == ContentSum(es[..i]) + |Content(es[i])|
  {
    assert es[..i + 1] == es[..i] + [es[i]];
    SumConcat(es[..i], [es[i]]);
    assert [es[i]][1..] == [];
  }

  /** Two header bytes per element. */
  lemma {:induction false} EncodedSize(es: seq<Elem>)
    ensures |EncodeAll(es)| == ContentSum(es) + 2 * |es|
    decreases |es|
  {
    if es != [] {
      EncodedSize(es[1..]);
    }
  }

  /** The eight-bit size is the number of bytes written behind the header, and the buffer two bytes
      larger holds them, exactly up to 253 bytes of content. */
  lemma SizeDoesNotWrap(e: Elem)
    ensures (|Content(e)| % 256 + 2) % 256 == |Encode(e)| <==> |Content(e)| <= 253
  {
  }

  // ----- writing the bytes

  method AppendPayload(out: array<byte>, o: nat, payload: array<byte>)
    requires 2 <= o && o + payload.Length <= out.Length && payload != out
    modifies out
    ensures out[1] == old(out[1])
    ensures out[2..o + payload.Length] == old(out[2..o]) + payload[..]
  {
    CopyInto(payload, payload.Length, out, o);
    assert out[1] == out[..o][1] && out[2..o] == out[..o][2..];
    assert out[2..o + payload.Length] == out[2..o] + out[o..o + payload.Length];
  }

  method CopyInto(src: array<byte>, n: nat, dst: array<byte>, at: nat)
    requires n <= src.Length && at + n <= dst.Length && src != dst
    modifies dst
    ensures dst[..at] == old(dst[..at]) && dst[at..at + n] == src[..n] && dst[at + n..] == old(dst[at + n..])
  {
    for i := 0 to n
      invariant dst[..at] == old(dst[..at]) && dst[at..at + i] == src[..i] && dst[at + i..] == old(dst[at + i..])
    {
      dst[at + i] := src[i];
    }
  }

  /** Shifting right by k bytes. */
  function ShiftRight(v: nat, k: nat): nat {
    if k == 0 then v else ShiftRight(v / 256, k - 1)
  }

  lemma {:induction false} BigEndianByte(v: nat, n: nat, i: nat)
    requires i < n
    ensures |BigEndian(v, n)| == n && BigEndian(v, n)[i] == ShiftRight(v, n - 1 - i) % 256
    decreases n
  {
    BigEndianSize(v, n);
    if i < n - 1 {
      BigEndianByte(v / 256, n - 1, i);
    }
  }

  /** Most significant byte first, each by its own shift. */
  method IntegerPayload(kind: IntegerType, v: nat, len: byte) returns (out: array<byte>)
    requires len <= 253
    ensures fresh(out) && out[..] == Encode(IntegerElem(kind, v, len))
  {
    out := new byte[len + 2];
    out[0] := IntegerTag(kind);
    out[1] := len;
    BigEndianSize(v, len);
    for i := 0 to len
      invariant out[0] == IntegerTag(kind) && out[1] == len
      invariant out[2..i + 2] == BigEndian(v, len)[..i]
    {
      BigEndianByte(v, len, i);
      out[i + 2] := ShiftRight(v, len - 1 - i) % 256;
    }
    assert out[..] == [IntegerTag(kind), len] + out[2..len + 2];
  }

  /** Writes one element; up to 253 bytes of content nothing wraps and the size check at the end of
      every nested sequence holds. */
  method GetPayload(e: Elem) returns (out: array<byte>)
    requires |Content(e)| <= 253
    ensures fresh(out) && out[..] == Encode(e)
    decreases e, 1
  {
    match e
    case IntegerElem(kind, v, len) =>
      BigEndianSize(v, len);
      out := IntegerPayload(kind, v, len);
    case NullElem =>
      out := new byte[2];
      out[0], out[1] := 0x05, 0x00;
    case OctetString(bytes) =>
      out := LeafPayload(0x04, bytes);
    case Oid(wire) =>
      out := LeafPayload(0x06, wire);
    case Sequence(tag, elems) =>
      out := SequencePayload(tag, elems);
  }

  method LeafPayload(tag: byte, bytes: seq<byte>) returns (out: array<byte>)
    requires |bytes| <= 253
    ensures fresh(out) && out[..] == [tag, |bytes|] + bytes
  {
    out := new byte[|bytes| + 2];
    for i := 0 to |bytes|
      invariant out[2..i + 2] == bytes[..i]
    {
      out[i + 2] := bytes[i];
    }
    out[0] := tag;
    out[1] := |bytes|;
    assert out[2..|bytes| + 2] == bytes;
  }

  method SequencePayload(tag: byte, elems: seq<Elem>) returns (out: array<byte>)
    requires |EncodeAll(elems)| <= 253
    ensures fresh(out) && out[..] == [tag, |EncodeAll(elems)|] + EncodeAll(elems)
    decreases elems
  {
    hide Encode, EncodeAll, Content;
    var size := GetSequenceSize(elems);
    var outSize: byte := (size + 2) % 256;
    out := new byte[outSize];
    out[0] := 0x30;
    out[1] := outSize - 2;
    var o: byte := 2;
    NothingEncoded(elems);
    for i := 0 to |elems|
      invariant out.Length == outSize && o == 2 + |EncodeAll(elems[..i])| <= outSize
      invariant out[1] == outSize - 2 && out[2..o] == EncodeAll(elems[..i])
    {
      NextFits(elems, i);
      var payload := GetPayload(elems[i]);
      AppendPayload(out, o, payload);
      o := (o + payload.Length) % 256;
    }
    assert elems[..|elems|] == elems;
    assert o == outSize;
    out[0] := tag;
    assert out[2..] == EncodeAll(elems);
  }

  lemma NothingEncoded(es: seq<Elem>)
    ensures EncodeAll(es[..0]) == []
  {
  }

  lemma {:induction false} EncodeAllConcat(a: seq<Elem>, b: seq<Elem>)
    ensures EncodeAll(a + b) == EncodeAll(a) + EncodeAll(b)
    decreases |a|
  {
    hide Encode;
    if a == [] {
      assert a + b == b;
    } else {
      assert (a + b)[1..] == a[1..] + b;
      EncodeAllConcat(a[1..], b);
    }
  }

  /** The next element adds its encoding and stays within the whole. */
  lemma NextFits(es: seq<Elem>, i: nat)
    requires i < |es|
    ensures EncodeAll(es[..i + 1]) == EncodeAll(es[..i]) + Encode(es[i])
    ensures |EncodeAll(es[..i + 1])| <= |EncodeAll(es)|
    ensures |Encode(es[i])| == |Content(es[i])| + 2
  {
    hide Content;
    assert es[..i + 1] == es[..i] + [es[i]];
    EncodeAllConcat(es[..i], [es[i]]);
    assert [es[i]][1..] == [];
    assert es == es[..i + 1] + es[i + 1..];
    EncodeAllConcat(es[..i + 1], es[i + 1..]);
  }

  // ----- read back by an independent parser

  /** Tag, length, value; the parser descends where the tag says the content is constructed. */
  datatype Tlv = Primitive(tag: byte, content: seq<byte>) | Constructed(tag: byte, items: seq<Tlv>)

  datatype Parsed = Malformed | Items(items: seq<Tlv>)

  predicate IsConstructed(tag: byte) {
    tag / 32 % 2 == 1
  }

  function Parse(b: seq<byte>): Parsed
    decreases |b|
  {
    if b == [] then Items([])
    else if |b| < 2 || 2 + b[1] > |b| then Malformed
    else
      var v, rest := b[2..2 + b[1]], Parse(b[2 + b[1]..]);
      if rest.Malformed? then Malformed
      else if !IsConstructed(b[0]) then Items([Primitive(b[0], v)] + rest.items)
      else
        var inner := Parse(v);
        if inner.Malformed? then Malformed else Items([Constructed(b[0], inner.items)] + rest.items)
  }

  function Outline(e: Elem): Tlv
    decreases e, 1
  {
    match e
    case Sequence(tag, elems) => Constructed(tag, Outlines(elems))
    case _ => Primitive(Tag(e), Content(e))
  }

  function Outlines(es: seq<Elem>): seq<Tlv>
    decreases es, 0
  {
    if es == [] then [] else [Outline(es[0])] + Outlines(es[1..])
  }

  predicate WellTagged(e: Elem)
    decreases e, 1
  {
    e.Sequence? ==> IsConstructed(e.tag) && AllWellTagged(e.elems)
  }

  predicate AllWellTagged(es: seq<Elem>)
    decreases es, 0
  {
    es == [] || (WellTagged(es[0]) && AllWellTagged(es[1..]))
  }

  /** Every length at every depth is right: parsing what was written gives back the nested elements. */
  lemma {:induction false} ParseEncoded(es: seq<Elem>)
    requires AllWellTagged(es) && |EncodeAll(es)| < 256
    ensures Parse(EncodeAll(es)) == Items(Outlines(es))
    decreases es
  {
    if es != [] {
      var e, rest := es[0], EncodeAll(es[1..]);
      var b := Encode(e) + rest;
      assert b[2..2 + b[1]] == Content(e) && b[2 + b[1]..] == rest && b[0] == Tag(e);
      hide Encode;
      ParseEncoded(es[1..]);
      if e.Sequence? {
        ParseEncoded(e.elems);
      } else {
        LeafTag(e);
      }
    }
  }

  lemma LeafTag(e: Elem)
    requires !e.Sequence?
    ensures !IsConstructed(Tag(e))
  {
  }

  // ----- against the standard's definite lengths

  /** X.690 section 8.1.3: one byte below 128, otherwise a count of length bytes and these bytes. */
  function StandardLength(n: nat): seq<byte> {
    if n < 128 then [n] else if n < 256 then [0x81, n] else [0x84] + BigEndian(n, 4)
  }

  function StandardContent(e: Elem): seq<byte>
    decreases e, 0
  {
    if e.Sequence? then StandardAll(e.elems) else Content(e)
  }

  function StandardEncode(e: Elem): seq<byte>
    decreases e, 1
  {
    [Tag(e)] + StandardLength(|StandardContent(e)|) + StandardContent(e)
  }

  function StandardAll(es: seq<Elem>): seq<byte>
    decreases es
  {
    if es == [] then [] else StandardEncode(es[0]) + StandardAll(es[1..])
  }

  lemma {:induction false} StandardContentOf(e: Elem)
    ensures |StandardContent(e)| >= |Content(e)|
    ensures |Content(e)| < 128 ==> StandardContent(e) == Content(e)
    decreases e, 0
  {
    if e.Sequence? {
      StandardAllOf(e.elems);
    }
  }

  lemma {:induction false} StandardOf(e: Elem)
    ensures |StandardEncode(e)| >= |Encode(e)|
    ensures |Content(e)| < 128 <==> StandardEncode(e) == Encode(e)
    decreases e, 1
  {
    StandardContentOf(e);
    BigEndianSize(|StandardContent(e)|, 4);
    hide Content, StandardContent, BigEndian;
    if |Content(e)| >= 128 {
      assert |StandardEncode(e)| > |Encode(e)|;
    }
  }

  lemma {:induction false} StandardAllOf(es: seq<Elem>)
    ensures |StandardAll(es)| >= |EncodeAll(es)|
    ensures |EncodeAll(es)| < 128 ==> StandardAll(es) == EncodeAll(es)
    decreases es
  {
    if es != [] {
      StandardOf(es[0]);
      StandardAllOf(es[1..]);
      assert |Encode(es[0])| == 2 + |Content(es[0])|;
      hide Encode, StandardEncode;
    }
  }

  /** The one-byte lengths are the standard's exactly as long as the content is shorter than 128 bytes. */
  lemma StandardExactly(e: Elem)
    ensures Encode(e) == StandardEncode(e) <==> |Content(e)| < 128
  {
    StandardOf(e);
  }
}
