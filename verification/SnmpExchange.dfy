/** Whole exchanges: what the decoder recovers from a request written with the agent's own elements,
    and the reply the agent builds for it. */
module SnmpExchange {
  import opened Bytes
  import opened OidText
  import opened OidCodec
  import opened OidOrder
  import opened SnmpData
  import opened OidRegistry
  import opened SnmpElem
  import opened SnmpManager
  import opened Snmp
  import opened Wrappers

  // ----- requests

  /** A name with a value: null in a Get, any plain value in a Set. */
  function VarBind(p: Path, value: Elem): Elem {
    Sequence(0x30, [Oid(OidBytes(p)), value])
  }

  function VarBindList(ps: seq<Path>, values: seq<Elem>): seq<Elem>
    requires |ps| == |values|
  {
    if ps == [] then [] else [VarBind(ps[0], values[0])] + VarBindList(ps[1..], values[1..])
  }

  /** A request message: version, community, and one unit with its id, two zeros and the bindings. */
  function Message(pdu: byte, version: nat, community: seq<byte>, reqId: nat, ps: seq<Path>, values: seq<Elem>): Elem
    requires version < UINT64 && reqId < UINT64 && |ps| == |values|
  {
    Sequence(0x30, [NewInteger(Integer, version), OctetString(community), RequestPdu(pdu, reqId, ps, values)])
  }

  function RequestPdu(pdu: byte, reqId: nat, ps: seq<Path>, values: seq<Elem>): Elem
    requires reqId < UINT64 && |ps| == |values|
  {
    Sequence(pdu, [NewInteger(Integer, reqId), NewInteger(Integer, 0), NewInteger(Integer, 0),
                   Sequence(0x30, VarBindList(ps, values))])
  }

  /** The names asked for, taken over one by one. */
  ghost function AddAll(names: Directory, r: Request, ps: seq<Path>, getNext: bool): Request
    decreases |ps|
  {
    if ps == [] then r else AddAll(names, AddOid(names, r, Join(ps[0]), getNext), ps[1..], getNext)
  }

  // ----- integers

  lemma {:induction false} GetIntegerConcat(v: nat, a: seq<byte>, b: seq<byte>)
    ensures GetInteger(v, a + b) == GetInteger(GetInteger(v, a), b)
    decreases |a|
  {
    if a == [] {
      assert a + b == b;
    } else {
      assert (a + b)[1..] == a[1..] + b;
      GetIntegerConcat((256 * v + a[0]) % UINT64, a[1..], b);
    }
  }

  lemma {:induction false} IntegerDecoded(v: nat, n: nat)
    requires v < Pow256(n) && v < UINT64
    ensures GetInteger(0, BigEndian(v, n)) == v
    decreases n
  {
    if n != 0 {
      IntegerDecoded(v / 256, n - 1);
      GetIntegerConcat(0, BigEndian(v / 256, n - 1), [v % 256]);
      assert [v % 256][1..] == [];
    }
  }

  /** What the integer constructor writes is read back, for every 64-bit number. */
  lemma NewIntegerDecoded(v: nat)
    requires v < UINT64
    ensures GetInteger(0, Content(NewInteger(Integer, v))) == v
    ensures |Content(NewInteger(Integer, v))| <= 8
  {
    Powers();
    var n := if v <= 0xffff_ffff then 4 else 8;
    IntegerDecoded(v, n);
    BigEndianSize(v, n);
  }

  /** Whatever their number, bytes are read as one unsigned number, modulo 2^64. */
  lemma {:induction false} IntegerWraps(b: seq<byte>)
    ensures GetInteger(0, b) == Unsigned(b) % 0x1_0000_0000_0000_0000
    decreases |b|
  {
    if b != [] {
      var init, last := b[..|b| - 1], b[|b| - 1];
      assert b == init + [last] && [last][1..] == [];
      IntegerWraps(init);
      GetIntegerConcat(0, init, [last]);
      WrapsInside(Unsigned(init), last);
    }
  }

  lemma WrapsInside(n: nat, last: byte)
    ensures (256 * (n % UINT64) + last) % UINT64 == (256 * n + last) % UINT64
  {
    var q := n / UINT64;
    assert 256 * n + last == 256 * (n % UINT64) + last + 256 * q * UINT64;
    WholeWords(256 * (n % UINT64) + last, 256 * q);
  }

  lemma WholeWords(r: nat, k: nat)
    ensures (r + k * UINT64) % UINT64 == r % UINT64
  {
  }

  /** A version is kept as the signed 32-bit number with the same low bits. */
  lemma VersionWraps(v: nat)
    ensures -0x8000_0000 <= ToInt(v) < 0x8000_0000 && (ToInt(v) - v) % 0x1_0000_0000 == 0
  {
    var q := v / 0x1_0000_0000;
    assert ToInt(v) - v == -q * 0x1_0000_0000 || ToInt(v) - v == -(q + 1) * 0x1_0000_0000;
  }

  // ----- one element in front of the rest

  lemma HeadOf(e: Elem, rest: seq<byte>)
    requires |Content(e)| < 256
    ensures var b := Encode(e) + rest;
            && b[0] == Tag(e) && b[1] == |Content(e)| && |b| == 2 + |Content(e)| + |rest|
            && b[2..2 + b[1]] == Content(e) && b[2 + b[1]..] == rest
  {
    hide Content, Tag;
  }

  lemma IntegerLeads(v: nat, rest: seq<byte>)
    requires v < UINT64
    ensures LeadingInteger(Encode(NewInteger(Integer, v)) + rest) == Lead(Accepted, v, rest)
  {
    hide Encode, GetInteger, Content;
    NewIntegerDecoded(v);
    HeadOf(NewInteger(Integer, v), rest);
  }

  lemma EncodeTwo(a: Elem, b: Elem)
    ensures EncodeAll([a, b]) == Encode(a) + Encode(b)
  {
    hide Encode;
    assert [a, b][1..] == [b] && [b][1..] == [];
    assert EncodeAll([b]) == Encode(b);
  }

  lemma EncodeThree(a: Elem, b: Elem, c: Elem)
    ensures EncodeAll([a, b, c]) == Encode(a) + (Encode(b) + Encode(c))
  {
    hide Encode;
    assert [a, b, c][1..] == [b, c];
    EncodeTwo(b, c);
  }

  lemma EncodeFour(a: Elem, b: Elem, c: Elem, d: Elem)
    ensures EncodeAll([a, b, c, d]) == Encode(a) + (Encode(b) + (Encode(c) + Encode(d)))
  {
    hide Encode;
    assert [a, b, c, d][1..] == [b, c, d];
    EncodeThree(b, c, d);
  }

  // ----- the bindings

  /** Neither another name nor a nested sequence. */
  predicate PlainValue(value: Elem) {
    !value.Oid? && !value.Sequence?
  }

  ghost predicate Requestable(ps: seq<Path>, values: seq<Elem>)
    requires |ps| == |values|
  {
    && (forall i :: 0 <= i < |ps| ==> IsIso(ps[i]) && OidCodec.Fits(ps[i]))
    && forall i :: 0 <= i < |ps| ==> PlainValue(values[i])
  }

  /** A GETNEXT needs something to be registered. */
  predicate Searchable(names: Directory, ps: seq<Path>, getNext: bool) {
    getNext && ps != [] ==> names.roots != []
  }

  /** The value of a binding changes nothing, whatever its type; only the verdict may. */
  lemma VarBindDecoded(names: Directory, p: Path, value: Elem, r: Request, getNext: bool)
    requires getNext ==> names.roots != []
    requires IsIso(p) && OidCodec.Fits(p) && PlainValue(value) && |Content(VarBind(p, value))| < 256
    ensures var result := Ber(names, Content(VarBind(p, value)), r, getNext, 0);
            && result.req == AddOid(names, r, Join(p), getNext)
            && (result.verdict.Accepted? || result.verdict.Rejected?)
            && (value.NullElem? ==> result.verdict.Accepted?)
  {
    hide Encode, Content, DecodeOid, AddOid;
    var o := Oid(OidBytes(p));
    VarBindContent(p, value);
    var b := Content(VarBind(p, value));
    HeadOf(o, Encode(value));
    OidRoundTrip(p);
    ValueSkipped(names, value, AddOid(names, r, Join(p), getNext), getNext);
  }

  lemma ValueSkipped(names: Directory, value: Elem, r: Request, getNext: bool)
    requires PlainValue(value) && |Content(value)| < 256
    ensures var result := BerLoop(names, Encode(value), r, getNext, 0, true, true);
            && result.req == r
            && (result.verdict.Accepted? || result.verdict.Rejected?)
            && (value.NullElem? ==> result.verdict.Accepted?)
  {
    hide Encode, Content, DecodeOid, AddOid, GetInteger;
    HeadOf(value, []);
    assert Encode(value) + [] == Encode(value);
  }

  /** A value that is itself an identifier is taken for one more name asked for. */
  lemma NameAsValueIsAsked(names: Directory, p: Path, q: Path, r: Request, getNext: bool)
    requires getNext ==> names.roots != []
    requires IsIso(p) && OidCodec.Fits(p) && IsIso(q) && OidCodec.Fits(q)
    requires |Content(VarBind(p, Oid(OidBytes(q))))| < 256
    ensures Ber(names, Content(VarBind(p, Oid(OidBytes(q)))), r, getNext, 0)
            == Result(Accepted, AddOid(names, AddOid(names, r, Join(p), getNext), Join(q), getNext))
  {
    hide Encode, Content, DecodeOid, AddOid;
    var value := Oid(OidBytes(q));
    VarBindContent(p, value);
    assert Content(value) == OidBytes(q) by { VarBindContent(q, NullElem); }
    OidRoundTrip(p);
    OidRoundTrip(q);
    HeadOf(Oid(OidBytes(p)), Encode(value));
    NameStep(names, p, Encode(value), r, getNext);
    HeadOf(value, []);
    assert Encode(value) + [] == Encode(value);
    var r1 := AddOid(names, r, Join(p), getNext);
    NameStep(names, q, [], r1, getNext);
    LoopDone(names, AddOid(names, r1, Join(q), getNext), getNext, 0, true, true);
  }

  lemma NameStep(names: Directory, p: Path, rest: seq<byte>, r: Request, getNext: bool)
    requires getNext ==> names.roots != []
    requires IsIso(p) && OidCodec.Fits(p) && |OidBytes(p)| < 256
    ensures BerLoop(names, Encode(Oid(OidBytes(p))) + rest, r, getNext, 0, true, true)
            == BerLoop(names, rest, AddOid(names, r, Join(p), getNext), getNext, 0, true, true)
  {
    hide Encode, DecodeOid, AddOid, OidBytes;
    HeadOf(Oid(OidBytes(p)), rest);
    OidRoundTrip(p);
  }

  /** And an integer in a nested sequence there is taken for the version. */
  lemma NestedValueChangesVersion(names: Directory, version: nat, r: Request)
    requires version < 0x8000_0000
    ensures Ber(names, Encode(Sequence(0x30, [NewInteger(Integer, version)])), r, false, 0)
            == Result(Accepted, r.(version := version))
  {
    hide Encode, Content, GetInteger;
    var i := NewInteger(Integer, version);
    NewIntegerDecoded(version);
    OnlyElement(i);
    HeadOf(Sequence(0x30, [i]), []);
    assert Encode(Sequence(0x30, [i])) + [] == Encode(Sequence(0x30, [i]));
    Alone(names, Encode(Sequence(0x30, [i])), Encode(i), r, false, 0);
    HeadOf(i, []);
    assert Encode(i) + [] == Encode(i);
    BerStarts(names, Encode(i), r, false, -1);
    LoopDone(names, r.(version := version), false, -1, false, true);
  }

  lemma OnlyElement(e: Elem)
    ensures Content(Sequence(0x30, [e])) == Encode(e) && |Encode(e)| == 2 + |Content(e)|
  {
    hide Content;
    EncodedLength(e);
    assert [e][1..] == [];
    assert EncodeAll([e]) == Encode(e) + EncodeAll([]);
    ContentOf(0x30, [e]);
  }

  lemma ContentOf(tag: byte, es: seq<Elem>)
    ensures Content(Sequence(tag, es)) == EncodeAll(es)
  {
  }

  lemma VarBindContent(p: Path, value: Elem)
    ensures Content(VarBind(p, value)) == Encode(Oid(OidBytes(p))) + Encode(value)
    ensures Content(Oid(OidBytes(p))) == OidBytes(p)
    ensures |Content(VarBind(p, value))| == |OidBytes(p)| + |Content(value)| + 4
  {
    EncodeTwo(Oid(OidBytes(p)), value);
  }

  lemma LoopDone(names: Directory, r: Request, getNext: bool, top: int, firstInt: bool, firstStr: bool)
    ensures BerLoop(names, [], r, getNext, top, firstInt, firstStr) == Result(Accepted, r)
  {
  }

  lemma {:induction false} VarBindsDecoded(names: Directory, ps: seq<Path>, values: seq<Elem>, r: Request, getNext: bool)
    requires |ps| == |values| && Requestable(ps, values)
    requires |EncodeAll(VarBindList(ps, values))| < 256 && Searchable(names, ps, getNext)
    ensures VarBinds(names, EncodeAll(VarBindList(ps, values)), r, getNext)
            == Result(Accepted, AddAll(names, r, ps, getNext))
    decreases |ps|
  {
    hide Encode, Content, Ber, AddOid, PlainValue;
    if ps != [] {
      var rest := EncodeAll(VarBindList(ps[1..], values[1..]));
      VarBindListCons(ps, values);
      EncodedLength(VarBind(ps[0], values[0]));
      HeadOf(VarBind(ps[0], values[0]), rest);
      VarBindDecoded(names, ps[0], values[0], r, getNext);
      VarBindsDecoded(names, ps[1..], values[1..], AddOid(names, r, Join(ps[0]), getNext), getNext);
    }
  }

  lemma EncodedLength(e: Elem)
    ensures |Encode(e)| == 2 + |Content(e)|
  {
  }

  lemma VarBindListCons(ps: seq<Path>, values: seq<Elem>)
    requires ps != [] && |ps| == |values|
    ensures EncodeAll(VarBindList(ps, values))
            == Encode(VarBind(ps[0], values[0])) + EncodeAll(VarBindList(ps[1..], values[1..]))
    ensures Tag(VarBind(ps[0], values[0])) == 0x30
  {
    var l := VarBindList(ps, values);
    assert l[1..] == VarBindList(ps[1..], values[1..]);
  }

  // ----- the unit and the message

  lemma PduDecoded(names: Directory, pdu: byte, reqId: nat, ps: seq<Path>, values: seq<Elem>, r: Request, getNext: bool)
    requires reqId < UINT64 && |ps| == |values| && Requestable(ps, values) && |Content(RequestPdu(pdu, reqId, ps, values))| < 256
    requires Searchable(names, ps, getNext)
    ensures Pdu(names, Content(RequestPdu(pdu, reqId, ps, values)), r, getNext)
            == Result(Accepted, AddAll(names, r.(reqId := reqId), ps, getNext))
  {
    hide Encode, EncodeAll, VarBinds, LeadingInteger, VarBindList, AddAll, Requestable;
    var zero, list := NewInteger(Integer, 0), Sequence(0x30, VarBindList(ps, values));
    var id := NewInteger(Integer, reqId);
    EncodeFour(id, zero, zero, list);
    var b := EncodeAll([id, zero, zero, list]);
    EncodedLength(id);
    EncodedLength(zero);
    EncodedLength(list);
    IntegerLeads(reqId, Encode(zero) + (Encode(zero) + Encode(list)));
    IntegerLeads(0, Encode(zero) + Encode(list));
    IntegerLeads(0, Encode(list));
    HeadOf(list, []);
    assert Encode(list) + [] == Encode(list);
    VarBindsDecoded(names, ps, values, r.(reqId := reqId), getNext);
  }

  predicate RequestTag(pdu: byte) {
    pdu in {0xa0, 0xa1, 0xa3}
  }

  /** A well-formed request is accepted and gives back its version, community and id, and its names in
      order; for GetNext each name's successor, with the error set if there is none. */
  lemma RequestDecoded(names: Directory, pdu: byte, version: nat, community: seq<byte>, reqId: nat, ps: seq<Path>, values: seq<Elem>)
    requires RequestTag(pdu) && version < 0x8000_0000 && reqId < UINT64 && |ps| == |values| && Requestable(ps, values)
    requires |Content(Message(pdu, version, community, reqId, ps, values))| <= 253 && Searchable(names, ps, pdu == 0xa1)
    ensures Ber(names, Encode(Message(pdu, version, community, reqId, ps, values)), BLANK, false, 2)
            == Result(Accepted, AddAll(names, Request([], reqId, 0, 0, version, community), ps, pdu == 0xa1))
  {
    hide Encode, Ber, Requestable, AddAll;
    var m := Message(pdu, version, community, reqId, ps, values);
    HeadOf(m, []);
    assert Encode(m) + [] == Encode(m);
    EncodedLength(m);
    BerStarts(names, Encode(m), BLANK, false, 2);
    InsideDecoded(names, pdu, version, community, reqId, ps, values);
    LoopDone(names, AddAll(names, Request([], reqId, 0, 0, version, community), ps, pdu == 0xa1), false, 2, true, true);
  }

  /** A message that is cut off anywhere is rejected, and nothing is taken from it. */
  lemma TruncatedRejected(names: Directory, e: Elem, n: nat, getNext: bool, top: int)
    requires |Content(e)| <= 253 && n < |Encode(e)|
    ensures Ber(names, Encode(e)[..n], BLANK, getNext, top) == Result(Rejected, BLANK)
  {
    hide Content, Tag;
  }

  /** So is one that starts with any type the agent does not know. */
  lemma UnknownTypeRejected(names: Directory, tag: byte, content: seq<byte>, rest: seq<byte>, getNext: bool, top: int)
    requires tag !in {0x02, 0x04, 0x05, 0x06, 0x30, 0xa0, 0xa1, 0xa3} && |content| < 256
    ensures Ber(names, [tag, |content|] + content + rest, BLANK, getNext, top) == Result(Rejected, BLANK)
  {
  }

  /** A single byte behind a message is not looked at. */
  lemma LastByteIgnored(names: Directory, es: seq<Elem>, last: byte, r: Request, getNext: bool, top: int)
    requires |EncodeAll(es)| <= 253
    ensures Ber(names, Encode(Sequence(0x30, es)) + [last], r, getNext, top)
            == Ber(names, Encode(Sequence(0x30, es)), r, getNext, top)
  {
    hide Encode, EncodeAll;
    var e := Sequence(0x30, es);
    HeadOf(e, []);
    HeadOf(e, [last]);
    assert Encode(e) + [] == Encode(e);
    Alone(names, Encode(e), Content(e), r, getNext, top);
    Alone(names, Encode(e) + [last], Content(e), r, getNext, top);
  }

  lemma Alone(names: Directory, b: seq<byte>, content: seq<byte>, r: Request, getNext: bool, top: int)
    requires |b| >= 2 && b[0] == 0x30 && |b| - 1 <= 2 + b[1] <= |b| && b[2..2 + b[1]] == content
    ensures Ber(names, b, r, getNext, top) == Ber(names, content, r, getNext, top - 1)
  {
    BerStarts(names, b, r, getNext, top);
  }

  lemma VersionStep(names: Directory, version: nat, rest: seq<byte>, r: Request, firstStr: bool)
    requires version < 0x8000_0000
    ensures BerLoop(names, Encode(NewInteger(Integer, version)) + rest, r, false, 1, true, firstStr)
            == BerLoop(names, rest, r.(version := version), false, 1, false, firstStr)
  {
    hide Encode, Content, GetInteger;
    NewIntegerDecoded(version);
    HeadOf(NewInteger(Integer, version), rest);
  }

  lemma CommunityStep(names: Directory, community: seq<byte>, rest: seq<byte>, r: Request, firstInt: bool)
    requires |community| < 256
    ensures BerLoop(names, Encode(OctetString(community)) + rest, r, false, 1, firstInt, true)
            == BerLoop(names, rest, r.(community := community), false, 1, firstInt, false)
  {
    hide Encode;
    HeadOf(OctetString(community), rest);
  }

  lemma PduStep(names: Directory, pdu: byte, reqId: nat, ps: seq<Path>, values: seq<Elem>, r: Request)
    requires RequestTag(pdu) && reqId < UINT64 && |ps| == |values| && Requestable(ps, values)
    requires |Content(RequestPdu(pdu, reqId, ps, values))| < 256
    requires Searchable(names, ps, pdu == 0xa1)
    ensures BerLoop(names, Encode(RequestPdu(pdu, reqId, ps, values)), r, false, 1, false, false)
            == Result(Accepted, AddAll(names, r.(reqId := reqId), ps, pdu == 0xa1))
  {
    hide Encode, Content, Pdu, AddAll, Requestable, VarBindList;
    var u := RequestPdu(pdu, reqId, ps, values);
    HeadOf(u, []);
    assert Encode(u) + [] == Encode(u);
    PduDecoded(names, pdu, reqId, ps, values, r, pdu == 0xa1);
    LoopDone(names, AddAll(names, r.(reqId := reqId), ps, pdu == 0xa1), false, 1, false, false);
  }

  lemma InsideDecoded(names: Directory, pdu: byte, version: nat, community: seq<byte>, reqId: nat, ps: seq<Path>, values: seq<Elem>)
    requires RequestTag(pdu) && version < 0x8000_0000 && reqId < UINT64 && |ps| == |values| && Requestable(ps, values)
    requires |Content(Message(pdu, version, community, reqId, ps, values))| <= 253 && Searchable(names, ps, pdu == 0xa1)
    ensures Ber(names, Content(Message(pdu, version, community, reqId, ps, values)), BLANK, false, 1)
            == Result(Accepted, AddAll(names, Request([], reqId, 0, 0, version, community), ps, pdu == 0xa1))
  {
    hide Encode, EncodeAll, BerLoop, Ber, RequestTag, Requestable, AddAll, VarBindList;
    var v, c, u := NewInteger(Integer, version), OctetString(community), RequestPdu(pdu, reqId, ps, values);
    EncodeThree(v, c, u);
    EncodedLength(v);
    EncodedLength(c);
    EncodedLength(u);
    BerStarts(names, EncodeAll([v, c, u]), BLANK, false, 1);
    VersionStep(names, version, Encode(c) + Encode(u), BLANK, true);
    CommunityStep(names, community, Encode(u), BLANK.(version := version), false);
    PduStep(names, pdu, reqId, ps, values, BLANK.(version := version, community := community));
  }

  // ----- what the names become

  /** A Get request yields exactly its names, in order. */
  lemma {:induction false} GetNames(names: Directory, r: Request, ps: seq<Path>)
    ensures AddAll(names, r, ps, false) == r.(oids := r.oids + Names(ps))
    decreases |ps|
  {
    hide Join, NextOf;
    if ps == [] {
      assert r.oids + [] == r.oids;
    } else {
      GetNames(names, AddOid(names, r, Join(ps[0]), false), ps[1..]);
      assert r.oids + [Join(ps[0])] + Names(ps[1..]) == r.oids + ([Join(ps[0])] + Names(ps[1..]));
    }
  }

  /** A later leaf below the same top-level node. */
  ghost predicate HasNext(keys: set<Path>, p: Path) {
    exists f :: IsNearSuccessor(keys, p, f)
  }

  /** GetNext of a name in any tree asks for the least leaf above it, in its top-level tree, or reports
      an error. */
  lemma GetNextName(names: Directory, r: Request, p: Path)
    requires Closed(names.keys) && p in names.keys
    ensures var next := AddOid(names, r, Join(p), true);
            if HasNext(names.keys, p) then
              exists f :: IsNearSuccessor(names.keys, p, f) && next == r.(oids := r.oids + [Join(f)])
            else next == r.(err := 2, errIdx := 1)
  {
    assert p != [];
    hide Join, Answer, Closed, IsLeaf, PassedUpTo, IsNearSuccessor;
    var x := AnswerExists(names, p);
    var a := NextOf(names, Join(p));
    KnownName(names, p, a);
    if f :| IsNearSuccessor(names.keys, p, f) && a == Join(f) {
      NearNonEmpty(names.keys, p, f);
      JoinNonEmpty(f);
    } else {
      forall f ensures !IsNearSuccessor(names.keys, p, f) {
        if IsNearSuccessor(names.keys, p, f) {
          NearMeansNotPassed(names.keys, p, f);
        }
      }
    }
  }

  lemma NearNonEmpty(keys: set<Path>, p: Path, f: Path)
    requires IsNearSuccessor(keys, p, f)
    ensures f != [] && IsLeaf(keys, f)
  {
  }

  /** Where all names share their first component, that is the least leaf of all. */
  lemma NextOfSingleRoot(keys: set<Path>, p: Path, f: Path)
    requires Closed(keys) && SingleRoot(keys) && p in keys
    ensures IsNearSuccessor(keys, p, f) <==> IsSuccessor(keys, p, f)
    ensures HasNext(keys, p) <==> !HasNoSuccessor(keys, p)
  {
    if l :| IsLeaf(keys, l) && Less(p, l) {
      var g := SuccessorExists(keys, p, l);
      assert g in keys && p != [] && g != [];
      assert IsNearSuccessor(keys, p, g);
    }
  }

  /** The successors of these names, in order, leaving out the names that have none. */
  ghost predicate NextOnes(keys: set<Path>, ps: seq<Path>, fs: seq<Path>)
    decreases |ps|
  {
    if ps == [] then fs == []
    else if HasNext(keys, ps[0]) then
      fs != [] && IsNearSuccessor(keys, ps[0], fs[0]) && NextOnes(keys, ps[1..], fs[1..])
    else NextOnes(keys, ps[1..], fs)
  }

  ghost predicate AllHaveNext(keys: set<Path>, ps: seq<Path>) {
    forall i :: 0 <= i < |ps| ==> HasNext(keys, ps[i])
  }

  lemma {:induction false} GetNextNames(names: Directory, r: Request, ps: seq<Path>) returns (fs: seq<Path>)
    requires Closed(names.keys) && forall i :: 0 <= i < |ps| ==> ps[i] in names.keys
    ensures NextOnes(names.keys, ps, fs)
    ensures AddAll(names, r, ps, true)
            == if AllHaveNext(names.keys, ps) then r.(oids := r.oids + Names(fs))
               else r.(oids := r.oids + Names(fs), err := 2, errIdx := 1)
    decreases |ps|
  {
    hide Closed, HasNext, IsNearSuccessor, Join, AddOid;
    if ps == [] {
      fs := [];
      assert r.oids + [] == r.oids;
    } else {
      GetNextName(names, r, ps[0]);
      var rest := GetNextNames(names, AddOid(names, r, Join(ps[0]), true), ps[1..]);
      AllHaveNextStep(names.keys, ps);
      if HasNext(names.keys, ps[0]) {
        var f :| IsNearSuccessor(names.keys, ps[0], f)
                 && AddOid(names, r, Join(ps[0]), true) == r.(oids := r.oids + [Join(f)]);
        fs := [f] + rest;
        assert fs[1..] == rest;
        assert r.oids + [Join(f)] + Names(rest) == r.oids + Names(fs);
      } else {
        fs := rest;
      }
    }
  }

  lemma AllHaveNextStep(keys: set<Path>, ps: seq<Path>)
    requires ps != []
    ensures AllHaveNext(keys, ps) <==> HasNext(keys, ps[0]) && AllHaveNext(keys, ps[1..])
  {
    hide HasNext;
  }

  lemma {:induction false} NextOnesAreLeaves(keys: set<Path>, ps: seq<Path>, fs: seq<Path>, k: nat)
    requires NextOnes(keys, ps, fs) && k < |fs|
    ensures IsLeaf(keys, fs[k])
    decreases |ps|
  {
    hide HasNext, IsLeaf;
    if HasNext(keys, ps[0]) {
      if k > 0 { NextOnesAreLeaves(keys, ps[1..], fs[1..], k - 1); }
    } else {
      NextOnesAreLeaves(keys, ps[1..], fs, k);
    }
  }

  // ----- replies

  lemma FinalZero(p: Path)
    requires p != []
    ensures var s := Join(p + [0]);
            && RFindDot(s) > 0 && s[RFindDot(s) - 1..] == ".0" && s[..RFindDot(s) - 1] == Join(p)
  {
    hide Join;
    assert (p + [0])[..|p|] == p;
    LastPart(p + [0]);
    DotZero(Join(p + [0]), RFindDot(Join(p + [0])));
    assert Digits(0) == "0";
  }

  lemma DotZero(s: string, k: nat)
    requires 0 < k <= |s| && s[k - 1] == '.'
    ensures s[k - 1..] == ".0" <==> s[k..] == "0"
  {
    assert s[k - 1..] == "." + s[k..];
    assert s[k - 1..][1..] == s[k..];
  }

  /** A registered name is bound to the value registered first for it. */
  lemma RegisteredValue(regs: seq<Registration<Elem>>, i: nat)
    requires NonEmptyPaths(regs) && i < |regs| && Outermost(regs, regs[i].path)
    requires forall j :: 0 <= j < i ==> regs[j].path != regs[i].path
    ensures ValueFor(Registered(regs), Join(regs[i].path)) == regs[i].value
  {
    LookupFindsFirst(regs, i);
  }

  /** So is its instance, the name with ".0" behind it. */
  lemma InstanceValue(regs: seq<Registration<Elem>>, i: nat)
    requires NonEmptyPaths(regs) && i < |regs| && Outermost(regs, regs[i].path)
    requires forall j :: 0 <= j < i ==> regs[j].path != regs[i].path
    ensures ValueFor(Registered(regs), Join(regs[i].path + [0])) == regs[i].value
  {
    hide Join, Split, Lookup, Registered, Outermost;
    var p := regs[i].path;
    LookupFindsFirst(regs, i);
    RegisteredClosed(regs);
    LookupIsMap(Registered(regs), p + [0]);
    NoInstanceNode(regs, i);
    FinalZero(p);
  }

  lemma NoInstanceNode(regs: seq<Registration<Elem>>, i: nat)
    requires NonEmptyPaths(regs) && i < |regs| && Outermost(regs, regs[i].path)
    ensures regs[i].path + [0] !in Registered(regs)
  {
    var p := regs[i].path;
    LeavesAreOutermost(regs, p);
    if p + [0] in Registered(regs) {
      LeafBelowNode(Registered(regs).Keys, p, 0);
    }
  }

  /** A name that is neither registered nor an instance of a registered one is bound to nothing. */
  lemma UnknownValue(regs: seq<Registration<Elem>>, p: Path)
    requires NonEmptyPaths(regs) && p != [] && p !in Registered(regs)
    requires p[|p| - 1] == 0 ==> p[..|p| - 1] !in Registered(regs)
    ensures ValueFor(Registered(regs), Join(p)) == NullElem
  {
    hide Join, Split, Lookup, Registered;
    RegisteredClosed(regs);
    LookupIsMap(Registered(regs), p);
    var s := Join(p);
    if RFindDot(s) > 0 && s[RFindDot(s) - 1..] == ".0" {
      ZeroEnding(p);
      LookupIsMap(Registered(regs), p[..|p| - 1]);
    }
  }

  lemma ZeroEnding(p: Path)
    requires p != [] && RFindDot(Join(p)) > 0 && Join(p)[RFindDot(Join(p)) - 1..] == ".0"
    ensures |p| > 1 && p[|p| - 1] == 0 && Join(p)[..RFindDot(Join(p)) - 1] == Join(p[..|p| - 1])
  {
    hide Join;
    LastPart(p);
    DotZero(Join(p), RFindDot(Join(p)));
    assert Digits(0) == "0";
    if Digits(p[|p| - 1]) == Digits(0) {
      DigitsInjective(p[|p| - 1], 0);
    }
  }

  // ----- request and reply together

  lemma {:induction false} FirstNamed(regs: seq<Registration<Elem>>, p: Path, n: nat) returns (i: nat)
    requires n < |regs| && regs[n].path == p
    ensures i <= n && regs[i].path == p && forall j :: 0 <= j < i ==> regs[j].path != p
    decreases n
  {
    if j :| 0 <= j < n && regs[j].path == p {
      i := FirstNamed(regs, p, j);
    } else {
      i := n;
    }
  }

  /** The binding of a leaf: its name's bytes and the value registered first for it. */
  ghost predicate BindsFirst(regs: seq<Registration<Elem>>, f: Path, binding: Binding) {
    exists i :: 0 <= i < |regs| && regs[i].path == f && (forall j :: 0 <= j < i ==> regs[j].path != f)
                && binding == Binding(TextBytes(Join(f)), Outline(regs[i].value))
  }

  lemma LeafBound(regs: seq<Registration<Elem>>, f: Path)
    requires NonEmptyPaths(regs) && IsLeaf(Registered(regs).Keys, f)
    ensures BindsFirst(regs, f, Binding(TextBytes(Join(f)), Outline(ValueFor(Registered(regs), Join(f)))))
  {
    hide Registered, ValueFor, TextBytes, Join, IsLeaf, Outermost, Outline;
    LeavesAreOutermost(regs, f);
    var n :| 0 <= n < |regs| && regs[n].path == f;
    var i := FirstNamed(regs, f, n);
    RegisteredValue(regs, i);
  }

  /** A response to the request with this version, community and id. */
  predicate Answers(h: Option<Heard>, version: nat, community: seq<byte>, id: nat, error: nat, index: nat) {
    && h.Some?
    && h.value.version == version
    && h.value.community == (if community == [] then Ascii("public") else community)
    && h.value.pdu == 0xa2
    && h.value.id == id
    && h.value.error == error
    && h.value.index == index
  }

  ghost predicate LeavesBound(regs: seq<Registration<Elem>>, fs: seq<Path>, bindings: seq<Binding>) {
    |bindings| == |fs| && forall k :: 0 <= k < |fs| ==> BindsFirst(regs, fs[k], bindings[k])
  }

  /** Each name's bytes with what is found for it. */
  predicate NamesBound(m: map<Path, Option<Elem>>, ps: seq<Path>, bindings: seq<Binding>) {
    && |bindings| == |ps|
    && forall i :: 0 <= i < |ps| ==> bindings[i] == Binding(OidBytes(ps[i]), Outline(ValueFor(m, Join(ps[i]))))
  }

  /** A GetNext request on the wire, for any names in any tree: it is accepted, and what a manager reads
      from the reply is its own version, community and id, and, in order, each name's successor with the
      value registered first for it; names without one are left out, with error 2 at index 1. */
  lemma GetNextExchange(regs: seq<Registration<Elem>>, version: nat, community: seq<byte>, reqId: nat, ps: seq<Path>,
                        values: seq<Elem>) returns (fs: seq<Path>)
    requires NonEmptyPaths(regs) && forall i :: 0 <= i < |ps| ==> ps[i] in Registered(regs)
    requires version < 0x8000_0000 && reqId < UINT64 && |ps| == |values| && Requestable(ps, values)
    requires |Content(Message(0xa1, version, community, reqId, ps, values))| <= 253
    ensures NextOnes(Registered(regs).Keys, ps, fs)
    ensures var r := Ber(RegisteredNames(regs), Encode(Message(0xa1, version, community, reqId, ps, values)),
                         BLANK, false, 2);
            var failed := !AllHaveNext(Registered(regs).Keys, ps);
            && r.verdict.Accepted?
            && r.req == Request(Names(fs), reqId, if failed then 2 else 0, if failed then 1 else 0, version, community)
            && (Sendable(Registered(regs), r.req) ==>
                  var h := Hear(Encode(Reply(Registered(regs), r.req)));
                  && Answers(h, version, community, reqId, if failed then 2 else 0, if failed then 1 else 0)
                  && LeavesBound(regs, fs, h.value.bindings))
  {
    hide Registered, RegisteredRoots, Encode, Content, Ber, Requestable, NonEmptyPaths, IsLeaf, Hear, Reply,
         NextOnes, AllHaveNext, AddAll, LeavesBound, BindsAll, Sendable;
    var names := RegisteredNames(regs);
    var start := Request([], reqId, 0, 0, version, community);
    RegisteredClosed(regs);
    SomethingRegistered(regs, ps);
    RequestDecoded(names, 0xa1, version, community, reqId, ps, values);
    fs := GetNextNames(names, start, ps);
    assert [] + Names(fs) == Names(fs);
    var failed := !AllHaveNext(Registered(regs).Keys, ps);
    var req := Request(Names(fs), reqId, if failed then 2 else 0, if failed then 1 else 0, version, community);
    if Sendable(Registered(regs), req) {
      ReplyHeard(Registered(regs), req);
      var h := Hear(Encode(Reply(Registered(regs), req))).value;
      LeavesHeard(regs, ps, fs, h.bindings);
    }
  }

  lemma LeavesHeard(regs: seq<Registration<Elem>>, ps: seq<Path>, fs: seq<Path>, bindings: seq<Binding>)
    requires NonEmptyPaths(regs) && NextOnes(Registered(regs).Keys, ps, fs)
    requires BindsAll(Registered(regs), Names(fs), bindings)
    ensures LeavesBound(regs, fs, bindings)
  {
    hide Registered, NonEmptyPaths, IsLeaf, NextOnes, BindsFirst, TextBytes, ValueFor, Outline, Join;
    NamesLength(fs);
    forall k | 0 <= k < |fs| ensures BindsFirst(regs, fs[k], bindings[k]) {
      NamesAt(fs, k);
      NextOnesAreLeaves(Registered(regs).Keys, ps, fs, k);
      LeafBound(regs, fs[k]);
    }
  }

  lemma SomethingRegistered(regs: seq<Registration<Elem>>, ps: seq<Path>)
    requires NonEmptyPaths(regs) && forall i :: 0 <= i < |ps| ==> ps[i] in Registered(regs)
    ensures Searchable(RegisteredNames(regs), ps, true)
  {
    if ps != [] {
      assert ps[0] in Registered(regs);
      RootsAre(regs, 0);
    }
  }

  /** A Get or Set request on the wire: it is accepted, and what a manager reads from the reply is its own
      version, community and id, no error, and each name asked for, in order, with what is found for it. */
  lemma GetExchange(names: Directory, m: map<Path, Option<Elem>>, pdu: byte, version: nat, community: seq<byte>, reqId: nat,
                    ps: seq<Path>, values: seq<Elem>)
    requires pdu in {0xa0, 0xa3} && version < 0x8000_0000 && reqId < UINT64 && |ps| == |values| && Requestable(ps, values)
    requires |Content(Message(pdu, version, community, reqId, ps, values))| <= 253
    ensures var r := Ber(names, Encode(Message(pdu, version, community, reqId, ps, values)), BLANK, false, 2);
            && r == Result(Accepted, Request(Names(ps), reqId, 0, 0, version, community))
            && (Sendable(m, r.req) ==>
                  var h := Hear(Encode(Reply(m, r.req)));
                  Answers(h, version, community, reqId, 0, 0) && NamesBound(m, ps, h.value.bindings))
  {
    hide Ber, Content, Encode, Hear, Reply, Sendable, BindsAll, Requestable, NamesBound, AddAll;
    var start := Request([], reqId, 0, 0, version, community);
    RequestDecoded(names, pdu, version, community, reqId, ps, values);
    GetNames(names, start, ps);
    assert [] + Names(ps) == Names(ps);
    var req := Request(Names(ps), reqId, 0, 0, version, community);
    if Sendable(m, req) {
      ReplyHeard(m, req);
      NamesHeard(m, ps, values, Hear(Encode(Reply(m, req))).value.bindings);
    }
  }

  lemma NamesHeard(m: map<Path, Option<Elem>>, ps: seq<Path>, values: seq<Elem>, bindings: seq<Binding>)
    requires |ps| == |values| && Requestable(ps, values) && BindsAll(m, Names(ps), bindings)
    ensures NamesBound(m, ps, bindings)
  {
    hide OidBytes, Outline, ValueFor, Join, IsIso, TextBytes;
    NamesLength(ps);
    forall i | 0 <= i < |ps|
      ensures bindings[i] == Binding(OidBytes(ps[i]), Outline(ValueFor(m, Join(ps[i]))))
    {
      NamesAt(ps, i);
      TextBytesOfPath(ps[i]);
    }
  }

  /** The names a well-formed exchange carries fit the encoder's buffers. */
  lemma ExchangedNamesFit(ps: seq<Path>)
    requires forall i, k :: 0 <= i < |ps| && 0 <= k < |ps[i]| ==> ps[i][k] < MAX_LONG
    ensures AllFit(Names(ps))
  {
    hide TextBytes, OidBytes, Join;
    NamesLength(ps);
    forall i | 0 <= i < |ps| ensures |TextBytes(Names(ps)[i])| <= |Names(ps)[i]| {
      NamesAt(ps, i);
      TextBytesOfPath(ps[i]);
    }
  }
}
