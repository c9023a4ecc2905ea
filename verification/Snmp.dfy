/** The SNMP agent's request decoder: BER walked element by element with mutual recursion between
    plain sequences and protocol data units, results collected in a request record. */
module Snmp {
  import opened Bytes
  import opened OidText
  import opened OidCodec
  import opened OidOrder
  import opened SnmpData
  import opened OidRegistry
  import opened SnmpElem
  import opened SnmpManager
  import opened Wrappers

  /** What a request asks for. */
  datatype Request = Request(oids: seq<string>, reqId: nat, err: int, errIdx: int, version: int, community: seq<byte>)

  const BLANK := Request([], 0, 0, 0, 0, [])

  /** OutOfRange stands for lengths inside a unit that lead past its end, where the original reads on;
      NoTree for a GETNEXT when nothing is registered, where it follows a null reference. */
  datatype Verdict = Accepted | Rejected | OutOfRange | NoTree

  function GetInteger(v: nat, b: seq<byte>): nat
    decreases |b|
  {
    if b == [] then v else GetInteger((256 * v + b[0]) % UINT64, b[1..])
  }

  /** A 64-bit word stored into a signed 32-bit field. */
  function ToInt(v: nat): int {
    var w := v % 0x1_0000_0000;
    if w < 0x8000_0000 then w else w - 0x1_0000_0000
  }

  ghost function NextOf(names: Directory, oid: string): string {
    if r :| Answer(names, oid, r) then r else ""
  }

  /** One requested name: taken as it is, or replaced by the next one in the tree. */
  ghost function AddOid(names: Directory, r: Request, oid: string, getNext: bool): Request {
    if !getNext then r.(oids := r.oids + [oid])
    else if NextOf(names, oid) == "" then r.(err := 2, errIdx := 1)
    else r.(oids := r.oids + [NextOf(names, oid)])
  }

  datatype Result = Result(verdict: Verdict, req: Request)

  // ----- decoding, as functions of the bytes

  ghost function Ber(names: Directory, b: seq<byte>, r: Request, getNext: bool, top: int): Result
    decreases |b|, 2
  {
    if |b| < 2 then Result(Rejected, r) else BerLoop(names, b, r, getNext, top, true, true)
  }

  /** The loop over the elements left in b. */
  ghost function BerLoop(names: Directory, b: seq<byte>, r: Request, getNext: bool, top: int, firstInt: bool,
                         firstStr: bool): Result
    decreases |b|, 1
  {
    if |b| < 2 then Result(Accepted, r)
    else if 2 + b[1] > |b| then Result(Rejected, r)
    else
      var v, rest := b[2..2 + b[1]], b[2 + b[1]..];
      if b[0] == 0x02 then
        var r1 := if top != 0 && firstInt then r.(version := ToInt(GetInteger(0, v))) else r;
        BerLoop(names, rest, r1, getNext, top, false, firstStr)
      else if b[0] == 0x04 then
        var r1 := if top != 0 && firstStr then r.(community := v) else r;
        BerLoop(names, rest, r1, getNext, top, firstInt, false)
      else if b[0] == 0x05 then BerLoop(names, rest, r, getNext, top, firstInt, firstStr)
      else if b[0] == 0x06 then
        var d := DecodeOid(v, true, 0, "");
        if !d.ok then Result(Rejected, r)
        else if getNext && names.roots == [] then Result(NoTree, r)
        else BerLoop(names, rest, AddOid(names, r, d.text, getNext), getNext, top, firstInt, firstStr)
      else if b[0] in {0x30, 0xa0, 0xa1, 0xa3} then
        var inner :=
          if b[0] == 0x30 then Ber(names, v, r, getNext, top - 1)
          else Pdu(names, v, r, getNext || b[0] == 0xa1);
        if !inner.verdict.Accepted? then inner
        else BerLoop(names, rest, inner.req, getNext, top, firstInt, firstStr)
      else Result(Rejected, r)
  }

  /** An integer at the start of b: its value and what follows it. */
  datatype Lead = Lead(verdict: Verdict, value: nat, rest: seq<byte>)

  function LeadingInteger(b: seq<byte>): (l: Lead)
    ensures l.verdict.Accepted? ==> |l.rest| <= |b| - 2
  {
    if |b| < 2 then Lead(OutOfRange, 0, [])
    else if b[0] != 0x02 then Lead(Rejected, 0, [])
    else if 2 + b[1] > |b| then Lead(OutOfRange, 0, [])
    else Lead(Accepted, GetInteger(0, b[2..2 + b[1]]), b[2 + b[1]..])
  }

  ghost function Pdu(names: Directory, b: seq<byte>, r: Request, getNext: bool): Result
    decreases |b|, 0
  {
    if |b| < 2 then Result(Rejected, r)
    else
      var id := LeadingInteger(b);
      if !id.verdict.Accepted? then Result(id.verdict, r)
      else
        var r1 := r.(reqId := id.value);
        var error := LeadingInteger(id.rest);
        if !error.verdict.Accepted? then Result(error.verdict, r1)
        else
          var index := LeadingInteger(error.rest);
          if !index.verdict.Accepted? then Result(index.verdict, r1)
          else
            var list := index.rest;
            if |list| < 1 then Result(OutOfRange, r1)
            else if list[0] != 0x30 then Result(Rejected, r1)
            else if |list| < 2 || 2 + list[1] > |list| then Result(OutOfRange, r1)
            else VarBinds(names, list[2..2 + list[1]], r1, getNext)
  }

  /** The variable bindings; whether one of them decodes is not checked. */
  ghost function VarBinds(names: Directory, b: seq<byte>, r: Request, getNext: bool): Result
    decreases |b|, 1
  {
    if b == [] then Result(Accepted, r)
    else if |b| < 2 || 2 + b[1] > |b| || b[0] != 0x30 then Result(Rejected, r)
    else
      var inner := Ber(names, b[2..2 + b[1]], r, getNext, 0);
      if inner.verdict.OutOfRange? || inner.verdict.NoTree? then inner
      else VarBinds(names, b[2 + b[1]..], inner.req, getNext)
  }

  // ----- the agent

  class OidReq {
    var oids: seq<string>
    var reqId: nat
    var err: int
    var errIdx: int
    var version: int
    var community: seq<byte>

    ghost function View(): Request
      reads this
    {
      Request(oids, reqId, err, errIdx, version, community)
    }

    constructor ()
      ensures View() == BLANK
    {
      oids, reqId, err, errIdx, version, community := [], 0, 0, 0, 0, [];
    }
  }

  method GetIntegerBytes(p: seq<byte>) returns (v: nat)
    ensures v == GetInteger(0, p)
  {
    v := 0;
    for i := 0 to |p|
      invariant GetInteger(v, p[i..]) == GetInteger(0, p)
    {
      assert p[i..][0] == p[i] && p[i..][1..] == p[i + 1..];
      v := (256 * v + p[i]) % UINT64;
    }
  }

  class Agent {
    const sd: SnmpData<Elem>

    constructor (sd: SnmpData<Elem>)
      ensures this.sd == sd
    {
      this.sd := sd;
    }

    ghost predicate Ready()
      reads this, sd, sd.repr
    {
      sd.Valid()
    }

    ghost function Listing(): Directory
      reads this, sd
    {
      sd.Listing()
    }

    lemma ReadyIs()
      ensures Ready() <==> sd.Valid()
    {
    }

    lemma NothingRegistered()
      requires Ready()
      ensures sd.data == [] <==> Listing().roots == []
    {
      sd.RootVec();
    }

    method StoreOid(req: OidReq, oid: string, isGetNext: bool)
      requires Ready() && (isGetNext ==> sd.data != [])
      modifies req
      ensures req.View() == AddOid(Listing(), old(req.View()), oid, isGetNext) && Ready()
    {
      hide Ready, SnmpData.Valid, Answer, NextAnswer, Start, Descend, Split, NextOf;
      assert sd.Valid() by { ReadyIs(); }
      if isGetNext {
        var oidNext := sd.FindNextOid(oid);
        NextOfIs(Listing(), oid, oidNext);
        if oidNext == "" {
          req.err := 2;
          req.errIdx := 1;
        } else {
          req.oids := req.oids + [oidNext];
        }
      } else {
        req.oids := req.oids + [oid];
      }
    }

    method ProcessBer(p: seq<byte>, req: OidReq, isGetNext: bool, isTop: int) returns (verdict: Verdict)
      requires Ready()
      modifies req
      ensures Ready() && Result(verdict, req.View()) == Ber(Listing(), p, old(req.View()), isGetNext, isTop)
      decreases |p|, 1
    {
      hide Ready, Ber, Pdu, DecodeOid, GetInteger, AddOid;
      if |p| < 2 {
        BerShort(Listing(), p, req.View(), isGetNext, isTop);
        return Rejected;
      }
      var firstInteger := true;
      var firstOctetStr := true;
      var pnt: seq<byte> := p;
      BerStarts(Listing(), p, req.View(), isGetNext, isTop);
      while |pnt| >= 2
        invariant Ready() && Listing() == old(Listing()) && |pnt| <= |p|
        invariant BerLoop(Listing(), pnt, req.View(), isGetNext, isTop, firstInteger, firstOctetStr)
                  == Ber(Listing(), p, old(req.View()), isGetNext, isTop)
        decreases |pnt|
      {
        var kind, length := pnt[0], pnt[1];
        if 2 + length > |pnt| {
          return Rejected;
        }
        var v := pnt[2..2 + length];
        if kind == 0x02 {
          if isTop != 0 && firstInteger {
            var value := GetIntegerBytes(v);
            req.version := ToInt(value);
          }
          firstInteger := false;
        } else if kind == 0x04 {
          if isTop != 0 && firstOctetStr {
            req.community := v;
          }
          firstOctetStr := false;
        } else if kind == 0x05 {
        } else if kind == 0x06 {
          var ok, oid := GetOid(v);
          if !ok {
            return Rejected;
          }
          NothingRegistered();
          if isGetNext && sd.data == [] {
            return NoTree;
          }
          StoreOid(req, oid, isGetNext);
        } else if kind == 0x30 {
          verdict := ProcessBer(v, req, isGetNext, isTop - 1);
          if !verdict.Accepted? {
            return;
          }
        } else if kind == 0xa0 || kind == 0xa1 || kind == 0xa3 {
          verdict := ProcessPdu(v, req, isGetNext || kind == 0xa1);
          if !verdict.Accepted? {
            return;
          }
        } else {
          return Rejected;
        }
        pnt := pnt[2 + length..];
      }
      verdict := Accepted;
    }

    method ProcessPdu(p: seq<byte>, req: OidReq, isGetNext: bool) returns (verdict: Verdict)
      requires Ready()
      modifies req
      ensures Ready() && Result(verdict, req.View()) == Pdu(Listing(), p, old(req.View()), isGetNext)
      decreases |p|, 0
    {
      hide Ready, VarBinds, LeadingInteger;
      if |p| < 2 {
        return Rejected;
      }
      var id := LeadingInteger(p);
      if !id.verdict.Accepted? {
        return id.verdict;
      }
      req.reqId := id.value;
      var error := LeadingInteger(id.rest);
      if !error.verdict.Accepted? {
        return error.verdict;
      }
      var index := LeadingInteger(error.rest);
      if !index.verdict.Accepted? {
        return index.verdict;
      }
      var list := index.rest;
      if |list| < 1 {
        return OutOfRange;
      }
      if list[0] != 0x30 {
        return Rejected;
      }
      if |list| < 2 || 2 + list[1] > |list| {
        return OutOfRange;
      }
      verdict := ProcessVarBinds(list[2..2 + list[1]], req, isGetNext);
    }

    method ProcessVarBinds(p: seq<byte>, req: OidReq, isGetNext: bool) returns (verdict: Verdict)
      requires Ready()
      modifies req
      ensures Ready() && Result(verdict, req.View()) == VarBinds(Listing(), p, old(req.View()), isGetNext)
      decreases |p|, 0
    {
      hide Ready, Ber;
      var pnt: seq<byte> := p;
      while pnt != []
        invariant Ready() && Listing() == old(Listing()) && |pnt| <= |p|
        invariant VarBinds(Listing(), pnt, req.View(), isGetNext) == VarBinds(Listing(), p, old(req.View()), isGetNext)
        decreases |pnt|
      {
        if |pnt| < 2 || 2 + pnt[1] > |pnt| || pnt[0] != 0x30 {
          return Rejected;
        }
        var inner := ProcessBer(pnt[2..2 + pnt[1]], req, isGetNext, 0);
        if inner.OutOfRange? || inner.NoTree? {
          return inner;
        }
        pnt := pnt[2 + pnt[1]..];
      }
      verdict := Accepted;
    }

    /** The value bound to a name: what is registered for it, or for the name in front of a final ".0";
        nothing otherwise, nor for a node without data. */
    method FindValue(oid: string) returns (value: Elem)
      requires Ready()
      ensures value == ValueFor(sd.Entries(), oid)
    {
      hide SnmpData.Valid, Split, Descend;
      var rc := sd.FindByOid(oid);
      var dot := RFindDot(oid);
      if rc.None? && dot > 0 && oid[dot - 1..] == ".0" {
        rc := sd.FindByOid(oid[..dot - 1]);
      }
      value := if rc.Some? && rc.value.Some? then rc.value.value else NullElem;
    }

    /** The reply's elements.  The names are any texts, as long as their bytes are no longer than they. */
    method GenReply(req: Request) returns (se: Elem)
      requires Ready() && AllFit(req.oids)
      ensures se == Reply(sd.Entries(), req)
    {
      hide SnmpData.Valid, Ready, TextBytes;
      var community := if req.community == [] then PUBLIC else req.community;
      var bindings: seq<Elem> := [];
      assert req.oids[..0] == [];
      for i := 0 to |req.oids|
        invariant bindings == Bindings(sd.Entries(), req.oids[..i])
      {
        BindingsSnoc(sd.Entries(), req.oids, i);
        var v, len := EncodeOid(req.oids[i]);
        var value := FindValue(req.oids[i]);
        bindings := bindings + [Sequence(0x30, [Oid(v[..len]), value])];
      }
      assert req.oids[..|req.oids|] == req.oids;
      se := ReplyMessage(req, community, bindings);
    }

    /** The reply as sent, for replies of up to 253 bytes, and what a manager reads from it. */
    method SendReply(req: Request) returns (packet: array<byte>)
      requires Ready() && AllFit(req.oids)
      requires |Content(Reply(sd.Entries(), req))| <= 253
      ensures fresh(packet) && packet[..] == Encode(Reply(sd.Entries(), req))
      ensures Sendable(sd.Entries(), req) ==> Tells(sd.Entries(), req, Hear(packet[..]))
    {
      hide Ready, Reply, Tells, Sendable;
      var se := GenReply(req);
      packet := GetPayload(se);
      if Sendable(sd.Entries(), req) {
        ReplyHeard(sd.Entries(), req);
      }
    }
  }

  // ----- replies, as functions of the tree

  const PUBLIC: seq<byte> := [112, 117, 98, 108, 105, 99]

  /** Each name's bytes fit the buffer the encoder makes for it. */
  predicate AllFit(oids: seq<string>) {
    forall i :: 0 <= i < |oids| ==> |TextBytes(oids[i])| <= |oids[i]|
  }

  function Names(ps: seq<Path>): seq<string> {
    if ps == [] then [] else [Join(ps[0])] + Names(ps[1..])
  }

  lemma {:induction false} NamesLength(ps: seq<Path>)
    ensures |Names(ps)| == |ps|
    decreases |ps|
  {
    if ps != [] {
      NamesLength(ps[1..]);
    }
  }

  lemma {:induction false} NamesAt(ps: seq<Path>, i: nat)
    requires i < |Names(ps)|
    ensures |Names(ps)| == |ps| && Names(ps)[i] == Join(ps[i])
    decreases |ps|
  {
    NamesLength(ps);
    if i > 0 {
      NamesAt(ps[1..], i - 1);
    }
  }

  function ValueFor(m: map<Path, Option<Elem>>, oid: string): Elem {
    var direct := Lookup(m, Split(oid));
    var dot := RFindDot(oid);
    var rc := if direct.None? && dot > 0 && oid[dot - 1..] == ".0" then Lookup(m, Split(oid[..dot - 1])) else direct;
    if rc.Some? && rc.value.Some? then rc.value.value else NullElem
  }

  function Bindings(m: map<Path, Option<Elem>>, oids: seq<string>): seq<Elem> {
    if oids == [] then []
    else [Sequence(0x30, [Oid(TextBytes(oids[0])), ValueFor(m, oids[0])])] + Bindings(m, oids[1..])
  }

  lemma {:induction false} BindingsConcat(m: map<Path, Option<Elem>>, a: seq<string>, b: seq<string>)
    ensures Bindings(m, a + b) == Bindings(m, a) + Bindings(m, b)
    decreases |a|
  {
    hide ValueFor, TextBytes;
    if a == [] {
      assert a + b == b;
    } else {
      assert (a + b)[1..] == a[1..] + b;
      BindingsConcat(m, a[1..], b);
    }
  }

  lemma BindingsSnoc(m: map<Path, Option<Elem>>, oids: seq<string>, i: nat)
    requires i < |oids|
    ensures Bindings(m, oids[..i + 1])
            == Bindings(m, oids[..i]) + [Sequence(0x30, [Oid(TextBytes(oids[i])), ValueFor(m, oids[i])])]
  {
    hide ValueFor, TextBytes;
    assert oids[..i + 1] == oids[..i] + [oids[i]];
    BindingsConcat(m, oids[..i], [oids[i]]);
    assert Bindings(m, [oids[i]]) == [Sequence(0x30, [Oid(TextBytes(oids[i])), ValueFor(m, oids[i])])] + Bindings(m, []);
  }

  /** A signed number as the unsigned word the integer constructor takes. */
  function ToWord(x: int): nat {
    x % UINT64
  }

  function ReplyMessage(r: Request, community: seq<byte>, bindings: seq<Elem>): Elem {
    Sequence(0x30, [NewInteger(Integer, ToWord(r.version)), OctetString(community),
      Sequence(0xa2, [NewInteger(Integer, ToWord(r.reqId)), NewInteger(Integer, ToWord(r.err)),
                      NewInteger(Integer, ToWord(r.errIdx)), Sequence(0x30, bindings)])])
  }

  function Reply(m: map<Path, Option<Elem>>, r: Request): Elem {
    ReplyMessage(r, if r.community == [] then PUBLIC else r.community, Bindings(m, r.oids))
  }

  // ----- replies, as a manager reads them

  function Ascii(s: string): (r: seq<byte>)
    requires forall i :: 0 <= i < |s| ==> s[i] as int < 128
  {
    seq(|s|, i requires 0 <= i < |s| => s[i] as int)
  }

  /** Elements whose tags say whether they are constructed, and few enough bytes that no size wraps. */
  ghost predicate Sendable(m: map<Path, Option<Elem>>, r: Request) {
    && |Content(Reply(m, r))| <= 253
    && forall p :: p in m && m[p].Some? ==> WellTagged(m[p].value)
  }

  /** One binding for each name, in order: the name's bytes and its value. */
  predicate BindsAll(m: map<Path, Option<Elem>>, oids: seq<string>, bindings: seq<Binding>) {
    && |bindings| == |oids|
    && forall i :: 0 <= i < |oids| ==> bindings[i] == Binding(TextBytes(oids[i]), Outline(ValueFor(m, oids[i])))
  }

  /** What a manager is to read: everything in its place, numbers as 64-bit words. */
  predicate Tells(m: map<Path, Option<Elem>>, r: Request, h: Option<Heard>) {
    && h.Some?
    && h.value.version == r.version % 0x1_0000_0000_0000_0000
    && h.value.community == (if r.community == [] then Ascii("public") else r.community)
    && h.value.pdu == 0xa2
    && h.value.id == r.reqId % 0x1_0000_0000_0000_0000
    && h.value.error == r.err % 0x1_0000_0000_0000_0000
    && h.value.index == r.errIdx % 0x1_0000_0000_0000_0000
    && BindsAll(m, r.oids, h.value.bindings)
  }

  lemma OutlineOfThree(tag: byte, a: Elem, b: Elem, c: Elem)
    ensures Outline(Sequence(tag, [a, b, c])) == Constructed(tag, [Outline(a), Outline(b), Outline(c)])
  {
    hide Outline;
    assert [a, b, c][1..] == [b, c] && [b, c][1..] == [c] && [c][1..] == [];
    assert Outlines([c]) == [Outline(c)];
    assert Outlines([b, c]) == [Outline(b)] + Outlines([c]);
    assert Outlines([a, b, c]) == [Outline(a)] + Outlines([b, c]);
    OutlineOf(tag, [a, b, c]);
  }

  lemma OutlineOf(tag: byte, es: seq<Elem>)
    ensures Outline(Sequence(tag, es)) == Constructed(tag, Outlines(es))
  {
  }

  lemma OutlineOfFour(tag: byte, a: Elem, b: Elem, c: Elem, d: Elem)
    ensures Outline(Sequence(tag, [a, b, c, d]))
            == Constructed(tag, [Outline(a), Outline(b), Outline(c), Outline(d)])
  {
    hide Outline;
    OutlineOfThree(tag, b, c, d);
    OutlineOf(tag, [b, c, d]);
    OutlineOf(tag, [a, b, c, d]);
    assert [a, b, c, d][1..] == [b, c, d];
  }

  lemma BindingTags(oid: seq<byte>, value: Elem)
    requires WellTagged(value)
    ensures WellTagged(Sequence(0x30, [Oid(oid), value]))
    ensures Outline(Sequence(0x30, [Oid(oid), value])) == Constructed(0x30, [Primitive(6, oid), Outline(value)])
  {
    var es := [Oid(oid), value];
    assert es[1..] == [value] && [value][1..] == [];
    assert AllWellTagged([value]);
    assert Outlines([value]) == [Outline(value)];
    assert Outlines(es) == [Primitive(6, oid)] + [Outline(value)];
  }

  lemma ValueWellTagged(m: map<Path, Option<Elem>>, oid: string)
    requires forall p :: p in m && m[p].Some? ==> WellTagged(m[p].value)
    ensures WellTagged(ValueFor(m, oid))
  {
    hide Split, WellTagged;
    assert WellTagged(NullElem) by { PlainTag(); }
  }

  lemma PlainTag()
    ensures WellTagged(NullElem)
  {
  }

  lemma {:induction false} BindingsHeard(m: map<Path, Option<Elem>>, oids: seq<string>)
    requires forall p :: p in m && m[p].Some? ==> WellTagged(m[p].value)
    ensures AllWellTagged(Bindings(m, oids))
    ensures var h := HearBindings(Outlines(Bindings(m, oids)));
            h.Some? && BindsAll(m, oids, h.value)
    decreases |oids|
  {
    hide TextBytes, ValueFor, Outline, WellTagged;
    if oids != [] {
      BindingsHeard(m, oids[1..]);
      ValueWellTagged(m, oids[0]);
      BindingTags(TextBytes(oids[0]), ValueFor(m, oids[0]));
      var bs := Bindings(m, oids);
      var first := Sequence(0x30, [Oid(TextBytes(oids[0])), ValueFor(m, oids[0])]);
      assert bs == [first] + Bindings(m, oids[1..]) && bs[0] == first && bs[1..] == Bindings(m, oids[1..]);
      var ts := Outlines(bs);
      assert ts[0] == Outline(first) && ts[1..] == Outlines(bs[1..]);
    }
  }

  lemma MessageTags(r: Request, community: seq<byte>, bindings: seq<Elem>)
    requires AllWellTagged(bindings)
    ensures WellTagged(ReplyMessage(r, community, bindings))
  {
    var id, error, index := NewInteger(Integer, ToWord(r.reqId)), NewInteger(Integer, ToWord(r.err)), NewInteger(Integer, ToWord(r.errIdx));
    var list := Sequence(0x30, bindings);
    assert WellTagged(list);
    TagsOfFour(0xa2, id, error, index, list);
    TagsOfThree(0x30, NewInteger(Integer, ToWord(r.version)), OctetString(community), Sequence(0xa2, [id, error, index, list]));
  }

  lemma TagsOfThree(tag: byte, a: Elem, b: Elem, c: Elem)
    requires IsConstructed(tag) && WellTagged(a) && WellTagged(b) && WellTagged(c)
    ensures WellTagged(Sequence(tag, [a, b, c])) && AllWellTagged([a, b, c])
  {
    assert [a, b, c][1..] == [b, c] && [b, c][1..] == [c] && [c][1..] == [];
    assert AllWellTagged([c]) && AllWellTagged([b, c]);
  }

  lemma TagsOfFour(tag: byte, a: Elem, b: Elem, c: Elem, d: Elem)
    requires IsConstructed(tag) && WellTagged(a) && WellTagged(b) && WellTagged(c) && WellTagged(d)
    ensures WellTagged(Sequence(tag, [a, b, c, d]))
  {
    TagsOfThree(tag, b, c, d);
    assert [a, b, c, d][1..] == [b, c, d];
  }

  /** Every reply that can be sent tells a manager what it is to read. */
  lemma ReplyHeard(m: map<Path, Option<Elem>>, r: Request)
    requires Sendable(m, r)
    ensures Tells(m, r, Hear(Encode(Reply(m, r))))
  {
    hide Bindings, BindsAll, Hear, HearMessage, WellTagged, Content, Encode;
    var e := Reply(m, r);
    BindingsHeard(m, r.oids);
    MessageTags(r, if r.community == [] then PUBLIC else r.community, Bindings(m, r.oids));
    ParsedAlone(e);
    HeardAlone(e);
    MessageHeard(r, if r.community == [] then PUBLIC else r.community, Bindings(m, r.oids));
    assert Ascii("public") == PUBLIC;
  }

  lemma ParsedAlone(e: Elem)
    requires WellTagged(e) && |Content(e)| <= 253
    ensures Parse(Encode(e)) == Items([Outline(e)])
  {
    hide Content, Outline, WellTagged;
    assert [e][1..] == [];
    assert EncodeAll([e]) == Encode(e) + EncodeAll([]) == Encode(e);
    assert Outlines([e]) == [Outline(e)];
    ParseEncoded([e]);
  }

  lemma HeardAlone(e: Elem)
    requires Parse(Encode(e)) == Items([Outline(e)])
    ensures Hear(Encode(e)) == HearMessage(Outline(e))
  {
    hide HearMessage, Outline, Encode;
  }

  lemma MessageHeard(r: Request, community: seq<byte>, bindings: seq<Elem>)
    requires HearBindings(Outlines(bindings)).Some?
    ensures HearMessage(Outline(ReplyMessage(r, community, bindings)))
            == Some(Heard(r.version % UINT64, community, 0xa2, r.reqId % UINT64, r.err % UINT64, r.errIdx % UINT64,
                          HearBindings(Outlines(bindings)).value))
  {
    hide HearBindings, Unsigned;
    var version, id := NewInteger(Integer, ToWord(r.version)), NewInteger(Integer, ToWord(r.reqId));
    var error, index := NewInteger(Integer, ToWord(r.err)), NewInteger(Integer, ToWord(r.errIdx));
    var list := Sequence(0x30, bindings);
    OutlineOfFour(0xa2, id, error, index, list);
    OutlineOfThree(0x30, version, OctetString(community), Sequence(0xa2, [id, error, index, list]));
    OutlineOf(0x30, bindings);
    IntegerHeard(Integer, ToWord(r.version));
    IntegerHeard(Integer, ToWord(r.reqId));
    IntegerHeard(Integer, ToWord(r.err));
    IntegerHeard(Integer, ToWord(r.errIdx));
  }

  lemma BerShort(names: Directory, b: seq<byte>, r: Request, getNext: bool, top: int)
    requires |b| < 2
    ensures Ber(names, b, r, getNext, top) == Result(Rejected, r)
  {
  }

  lemma BerStarts(names: Directory, b: seq<byte>, r: Request, getNext: bool, top: int)
    requires |b| >= 2
    ensures Ber(names, b, r, getNext, top) == BerLoop(names, b, r, getNext, top, true, true)
  {
  }

  lemma NextOfIs(names: Directory, oid: string, r: string)
    requires names.roots != []
    requires NextAnswer(names.keys, Start(names.roots, Descend(names.keys, [], Split(oid))), oid, r)
    ensures NextOf(names, oid) == r
  {
    hide NextAnswer, Descend, Split;
    assert Answer(names, oid, r);
    AnswerUnique(names, oid, NextOf(names, oid), r);
  }
}
