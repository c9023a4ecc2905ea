/** The manager's side: what is read from a reply's bytes, written down without any regard to how the
    agent makes them. */
module SnmpManager {
  import opened Bytes
  import opened SnmpElem
  import opened Wrappers

  datatype Binding = Binding(name: seq<byte>, value: Tlv)

  /** RFC 1157 section 4.1: version, community, and a unit with id, error status, error index and
      variable bindings. */
  datatype Heard = Heard(version: nat, community: seq<byte>, pdu: byte, id: nat, error: nat, index: nat,
                         bindings: seq<Binding>)

  /** The number a row of bytes stands for, the last one counting single. */
  function Unsigned(s: seq<byte>): nat {
    if s == [] then 0 else 256 * Unsigned(s[..|s| - 1]) + s[|s| - 1]
  }

  predicate IsItem(t: Tlv, tag: byte) {
    t.Primitive? && t.tag == tag
  }

  predicate IsList(t: Tlv, tag: byte, size: nat) {
    t.Constructed? && t.tag == tag && |t.items| == size
  }

  function HearBindings(ts: seq<Tlv>): Option<seq<Binding>> {
    if ts == [] then Some([])
    else if !IsList(ts[0], 0x30, 2) || !IsItem(ts[0].items[0], 0x06) then None
    else
      var rest := HearBindings(ts[1..]);
      if rest.None? then None else Some([Binding(ts[0].items[0].content, ts[0].items[1])] + rest.value)
  }

  function HearMessage(t: Tlv): Option<Heard> {
    if !IsList(t, 0x30, 3) || !IsItem(t.items[0], 0x02) || !IsItem(t.items[1], 0x04) then None
    else
      var unit := t.items[2];
      if !unit.Constructed? || |unit.items| != 4 then None
      else
        var id, error, index, list := unit.items[0], unit.items[1], unit.items[2], unit.items[3];
        if !IsItem(id, 0x02) || !IsItem(error, 0x02) || !IsItem(index, 0x02) || !list.Constructed? || list.tag != 0x30
        then None
        else
          var bindings := HearBindings(list.items);
          if bindings.None? then None
          else
            Some(Heard(Unsigned(t.items[0].content), t.items[1].content, unit.tag, Unsigned(id.content),
                       Unsigned(error.content), Unsigned(index.content), bindings.value))
  }

  /** One message, and nothing behind it. */
  function Hear(b: seq<byte>): Option<Heard> {
    var p := Parse(b);
    if p.Items? && |p.items| == 1 then HearMessage(p.items[0]) else None
  }

  // ----- integers

  function Pow256(k: nat): nat {
    if k == 0 then 1 else 256 * Pow256(k - 1)
  }

  lemma Powers()
    ensures Pow256(4) == 0x1_0000_0000 && Pow256(8) == UINT64
  {
    assert Pow256(2) == 0x1_0000;
    assert Pow256(4) == 256 * (256 * Pow256(2));
    assert Pow256(6) == 256 * (256 * Pow256(4));
    assert Pow256(8) == 256 * (256 * Pow256(6));
  }

  lemma {:induction false} UnsignedOf(v: nat, n: nat)
    requires v < Pow256(n)
    ensures Unsigned(BigEndian(v, n)) == v
    decreases n
  {
    if n != 0 {
      UnsignedOf(v / 256, n - 1);
      var s := BigEndian(v, n);
      assert s[..|s| - 1] == BigEndian(v / 256, n - 1);
    }
  }

  /** The manager reads every 64-bit number the agent writes. */
  lemma IntegerHeard(kind: IntegerType, v: nat)
    requires v < UINT64
    ensures Unsigned(Content(NewInteger(kind, v))) == v
  {
    Powers();
    UnsignedOf(v, if v <= 0xffff_ffff then 4 else 8);
  }

  /** X.690 section 8.3: an integer is two's complement. */
  function Signed(s: seq<byte>): int {
    if s != [] && s[0] >= 128 then Unsigned(s) - Pow256(|s|) else Unsigned(s)
  }

  /** As the standard has it, a number is read back exactly if it does not need the top bit of the four or
      eight bytes it is given. */
  lemma SignedExactly(kind: IntegerType, v: nat)
    requires v < UINT64
    ensures Signed(Content(NewInteger(kind, v))) == v
            <==> v < 0x8000_0000 || 0x1_0000_0000 <= v < 0x8000_0000_0000_0000
  {
    hide Pow256, Unsigned, BigEndian;
    Powers();
    IntegerHeard(kind, v);
    var n := if v <= 0xffff_ffff then 4 else 8;
    BigEndianSize(v, n);
    TopBit(v, n);
  }

  lemma {:induction false} TopBit(v: nat, n: nat)
    requires n >= 1 && v < Pow256(n)
    ensures |BigEndian(v, n)| == n && (BigEndian(v, n)[0] >= 128 <==> 2 * v >= Pow256(n))
    decreases n
  {
    BigEndianSize(v, n);
    BigEndianSize(v / 256, n - 1);
    if n == 1 {
      assert BigEndian(v / 256, 0) == [];
    } else {
      TopBit(v / 256, n - 1);
      assert Pow256(n - 1) == 256 * Pow256(n - 2);
    }
  }

  /** The four kinds on the wire: INTEGER is universal type 2, the others application types 1, 3 and 6
      (RFC 2578 section 7.1). */
  lemma KindsOnWire(kind: IntegerType, v: byte)
    ensures var number := match kind
                          case Integer => 2
                          case Counter32 => 64 + 1
                          case Ticks => 64 + 3
                          case Counter64 => 64 + 6;
            Encode(NewInteger(kind, v)) == [number, 4, 0, 0, 0, v]
  {
    SmallNumber(v);
    hide BigEndian;
    var e := NewInteger(kind, v);
    assert Encode(e) == [Tag(e), 4] + [0, 0, 0, v];
  }

  lemma SmallNumber(v: byte)
    ensures BigEndian(v, 4) == [0, 0, 0, v]
  {
    assert BigEndian(0, 1) == [0] && BigEndian(0, 2) == [0, 0] && BigEndian(0, 3) == [0, 0, 0];
    assert BigEndian(v, 4) == BigEndian(v / 256, 3) + [v];
  }
}
