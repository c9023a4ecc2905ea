/** AX.25 addresses and packets: what is read from bytes, what is written, and what comes back. */
module Ax25 {
  import opened Bytes
  import opened Wrappers

  /** A callsign as its characters' bytes, and the flags of its last byte.  The SSID is kept as a
      character: '0' plus the number. */
  datatype Address = Address(valid: bool, address: seq<byte>, ssid: byte, endMark: bool, repeated: bool)

  const NO_ADDRESS := Address(false, [], 48, false, false)

  // ----- addresses

  /** The characters before the first NUL or space, and whether no byte has its lowest bit set. */
  function Name(bytes: seq<byte>, end: bool): (r: (bool, seq<byte>)) {
    if bytes == [] then (true, [])
    else if bytes[0] % 2 == 1 then (false, [])
    else
      var c: byte := bytes[0] / 2;
      if c == 0 || c == 32 || end then Name(bytes[1..], true)
      else
        var rest := Name(bytes[1..], false);
        (rest.0, [c] + rest.1)
  }

  function ReadAddress(bytes: seq<byte>): Address {
    if |bytes| < 7 then NO_ADDRESS
    else
      var name := Name(bytes[..6], false);
      if !name.0 then NO_ADDRESS.(address := name.1)
      else Address(true, name.1, 48 + bytes[6] / 2 % 16, bytes[6] % 2 == 1, bytes[6] >= 128)
  }

  method ParseAddress(from: seq<byte>) returns (a: Address)
    ensures a == ReadAddress(from)
  {
    a := NO_ADDRESS;
    if |from| < 7 {
      return;
    }
    var end := false;
    assert from[0..6] == from[..6] && a.address + Name(from[..6], false).1 == Name(from[..6], false).1;
    for i := 0 to 6
      invariant a == NO_ADDRESS.(address := a.address)
      invariant var rest := Name(from[i..6], end);
                Name(from[..6], false) == (rest.0, a.address + rest.1)
    {
      var b := from[i];
      assert from[i..6][0] == b && from[i..6][1..] == from[i + 1..6];
      ghost var rest := Name(from[i + 1..6], false).1;
      assert a.address + ([b / 2] + rest) == (a.address + [b / 2]) + rest;
      if b % 2 == 1 {
        return;
      }
      var c: byte := b / 2;
      if c == 0 || c == 32 || end {
        end := true;
      } else {
        a := a.(address := a.address + [c]);
      }
    }
    a := Address(true, a.address, 48 + from[6] / 2 % 16, from[6] % 2 == 1, from[6] >= 128);
  }

  /** What the string constructor makes: the SSID is `true`, whatever was asked for. */
  function NewAddress(callsign: seq<byte>, ssid: byte, endMark: bool, repeated: bool): Address {
    Address(true, callsign, 1, endMark, repeated)
  }

  /** Assignment copies everything but the validity, which it sets. */
  function Assigned(a: Address): Address {
    a.(valid := true)
  }

  /** Shifted one bit up, in a byte. */
  function Shifted(c: int): byte {
    c * 2 % 256
  }

  function LastByte(a: Address): byte {
    var shifted := Shifted(a.ssid);
    (if a.repeated && shifted < 128 then shifted + 128 else shifted) + if a.endMark then 1 else 0
  }

  /** The byte written at place i of an address. */
  function NameByte(address: seq<byte>, i: nat): byte {
    if i < |address| then Shifted(address[i]) else 64
  }

  function WriteAddress(a: Address): (r: seq<byte>)
    ensures |r| == 7
  {
    [NameByte(a.address, 0), NameByte(a.address, 1), NameByte(a.address, 2), NameByte(a.address, 3),
     NameByte(a.address, 4), NameByte(a.address, 5), LastByte(a)]
  }

  method GenerateAddress(a: Address) returns (out: array<byte>)
    ensures fresh(out) && out[..] == WriteAddress(a)
  {
    out := new byte[7](_ => 0);
    var putN := if |a.address| < 6 then |a.address| else 6;
    for i := 0 to putN
      invariant forall k :: 0 <= k < i ==> out[k] == NameByte(a.address, k)
    {
      out[i] := Shifted(a.address[i]);
    }
    for i := putN to 6
      invariant forall k :: 0 <= k < i ==> out[k] == NameByte(a.address, k)
    {
      out[i] := 64;
    }
    out[6] := LastByte(a);
  }

  // ----- packets

  /** What a packet is made of.  Reading fills `seenBy`; nothing writes it. */
  datatype Fields = Fields(valid: bool, from: Address, to: Address, seenBy: seq<Address>, control: byte,
                           msgNr: Option<byte>, pid: Option<byte>, data: seq<byte>)

  const NO_FIELDS := Fields(false, NO_ADDRESS, NO_ADDRESS, [], 0, None, None, [])

  /** A reading can also run past the end of its input. */
  datatype Reading = Read(fields: Fields) | PastEnd

  predicate HasMsgNr(control: byte) {
    control % 4 == 0 || control % 4 == 1
  }

  predicate HasPid(control: byte) {
    control % 4 == 0 || control % 4 == 3
  }

  function ReadPacket(bytes: seq<byte>): Reading {
    if |bytes| < 14 then Read(NO_FIELDS)
    else
      var to := Assigned(ReadAddress(bytes[..7]));
      var from := Assigned(ReadAddress(bytes[7..14]));
      ReadRepeaters(bytes, 14, 0, from.endMark, NO_FIELDS.(to := to, from := from))
  }

  /** Up to two repeaters, until one has the end mark. */
  function ReadRepeaters(bytes: seq<byte>, offset: nat, n: nat, endMark: bool, f: Fields): Reading
    requires offset <= |bytes|
    decreases 2 - n
  {
    if n >= 2 || endMark then ReadRest(bytes, offset, f)
    else if offset + 7 > |bytes| then PastEnd
    else
      var a := ReadAddress(bytes[offset..offset + 7]);
      if !a.valid then Read(f)
      else ReadRepeaters(bytes, offset + 7, n + 1, a.endMark, f.(seenBy := f.seenBy + [a]))
  }

  /** The control byte, which is not kept, and what it says follows; one last byte is not data. */
  function ReadRest(bytes: seq<byte>, offset: nat, f: Fields): Reading
    requires offset <= |bytes|
  {
    if offset >= |bytes| then PastEnd
    else
      var control := bytes[offset];
      var o := offset + 1 + if HasMsgNr(control) then 1 else 0;
      var p := o + if HasPid(control) then 1 else 0;
      if p > |bytes| then PastEnd
      else
        var g := f.(msgNr := if HasMsgNr(control) then Some(bytes[offset + 1]) else f.msgNr,
                    pid := if HasPid(control) then Some(bytes[o]) else f.pid);
        Read(g.(valid := true, data := if p + 1 < |bytes| then bytes[p..] else f.data))
  }

  datatype Writing = Written(bytes: seq<byte>) | NoValue

  /** The packet's bytes; asking for a number or PID that is not there stops the program. */
  function WritePacket(f: Fields): Writing {
    var head := WriteAddress(f.to) + WriteAddress(f.from) + [f.control];
    if (HasMsgNr(f.control) && f.msgNr.None?) || (HasPid(f.control) && f.pid.None?) then NoValue
    else
      Written(head + (if HasMsgNr(f.control) then [f.msgNr.value] else [])
                   + (if HasPid(f.control) then [f.pid.value] else []) + f.data)
  }

  class Ax25 {
    var valid: bool
    var from: Address
    var to: Address
    var seenBy: seq<Address>
    var control: byte
    var msgNr: Option<byte>
    var pid: Option<byte>
    var data: seq<byte>

    function Get(): Fields
      reads this
    {
      Fields(valid, from, to, seenBy, control, msgNr, pid, data)
    }

    constructor ()
      ensures Get() == NO_FIELDS
    {
      valid, from, to, seenBy := false, NO_ADDRESS, NO_ADDRESS, [];
      control, msgNr, pid, data := 0, None, None, [];
    }

    /** Reads a packet into a new object. */
    method Parse(bytes: seq<byte>) returns (ok: bool)
      requires Get() == NO_FIELDS
      modifies this
      ensures ok <==> ReadPacket(bytes).Read?
      ensures ok ==> Get() == ReadPacket(bytes).fields
    {
      hide ReadAddress;
      if |bytes| < 14 {
        return true;
      }
      var a := ParseAddress(bytes[0..7]);
      to := Assigned(a);
      a := ParseAddress(bytes[7..14]);
      from := Assigned(a);
      var endMark := from.endMark;
      var offset := 14;
      var i := 0;
      while i < 2 && !endMark
        invariant 0 <= i <= 2 && 14 <= offset <= |bytes|
        invariant ReadRepeaters(bytes, offset, i, endMark, Get()) == ReadPacket(bytes)
        invariant Get() == NO_FIELDS.(to := to, from := from, seenBy := seenBy)
      {
        if offset + 7 > |bytes| {
          return false;
        }
        a := ParseAddress(bytes[offset..offset + 7]);
        offset := offset + 7;
        endMark := a.endMark;
        if !a.valid {
          return true;
        }
        seenBy := seenBy + [a];
        i := i + 1;
      }
      ok := ParseRest(bytes, offset);
    }

    /** The part behind the addresses. */
    method ParseRest(bytes: seq<byte>, from: nat) returns (ok: bool)
      requires from <= |bytes|
      modifies this
      ensures ok <==> ReadRest(bytes, from, old(Get())).Read?
      ensures ok ==> Get() == ReadRest(bytes, from, old(Get())).fields
    {
      var offset := from;
      if offset >= |bytes| {
        return false;
      }
      var theControl := bytes[offset];
      offset := offset + 1;
      if HasMsgNr(theControl) {
        if offset >= |bytes| {
          return false;
        }
        msgNr := Some(bytes[offset]);
        offset := offset + 1;
      }
      if HasPid(theControl) {
        if offset >= |bytes| {
          return false;
        }
        pid := Some(bytes[offset]);
        offset := offset + 1;
      }
      if offset < |bytes| - 1 {
        data := bytes[offset..];
      }
      valid := true;
      return true;
    }

    method SetFrom(callsign: seq<byte>, ssid: byte, endMark: bool, repeated: bool)
      modifies this
      ensures Get() == old(Get()).(from := NewAddress(callsign, ssid, endMark, repeated))
    {
      from := Assigned(NewAddress(callsign, ssid, endMark, repeated));
    }

    method SetTo(callsign: seq<byte>, ssid: byte, endMark: bool, repeated: bool)
      modifies this
      ensures Get() == old(Get()).(to := NewAddress(callsign, ssid, endMark, repeated))
    {
      to := Assigned(NewAddress(callsign, ssid, endMark, repeated));
    }

    method SetControl(control: byte)
      modifies this
      ensures Get() == old(Get()).(control := control)
    {
      this.control := control;
    }

    method SetPid(pid: byte)
      modifies this
      ensures Get() == old(Get()).(pid := Some(pid))
    {
      this.pid := Some(pid);
    }

    method SetData(data: seq<byte>)
      modifies this
      ensures Get() == old(Get()).(data := data)
    {
      this.data := data;
    }

    method GeneratePacket() returns (w: Writing)
      ensures w == WritePacket(Get())
    {
      hide WriteAddress;
      var out := new byte[|data| + 1024](_ => 0);
      var addrTo := GenerateAddress(to);
      Copy(out, 0, addrTo[..]);
      var addrFrom := GenerateAddress(from);
      Copy(out, 7, addrFrom[..]);
      var offset := 14;
      Copy(out, offset, [control]);
      offset := offset + 1;
      ghost var head := WriteAddress(to) + WriteAddress(from) + [control];
      assert out[..offset] == head;
      ghost var number := if HasMsgNr(control) && msgNr.Some? then [msgNr.value] else [];
      if HasMsgNr(control) {
        if msgNr.None? {
          return NoValue;
        }
        Copy(out, offset, [msgNr.value]);
        offset := offset + 1;
      }
      assert out[..offset] == head + number;
      if HasPid(control) {
        if pid.None? {
          return NoValue;
        }
        Copy(out, offset, [pid.value]);
        offset := offset + 1;
      }
      assert out[..offset] == head + number + if HasPid(control) then [pid.value] else [];
      Copy(out, offset, data);
      w := Written(out[..offset + |data|]);
    }
  }

  /** Writes s at the offset. */
  method Copy(out: array<byte>, offset: nat, s: seq<byte>)
    requires offset + |s| <= out.Length
    modifies out
    ensures out[..offset + |s|] == old(out[..offset]) + s
  {
    ghost var before := out[..offset];
    for i := 0 to |s|
      invariant out[..offset + i] == before + s[..i]
    {
      out[offset + i] := s[i];
      assert out[..offset + i + 1] == out[..offset + i] + [s[i]] && s[..i + 1] == s[..i] + [s[i]];
    }
    assert s[..|s|] == s;
  }

  // ----- addresses come back

  /** What is left of a callsign: six characters of seven bits, up to a NUL or space. */
  function Cut(s: seq<byte>, room: nat): (r: seq<byte>) {
    if room == 0 || s == [] || s[0] % 128 == 0 || s[0] % 128 == 32 then []
    else [s[0] % 128] + Cut(s[1..], room - 1)
  }

  predicate PlainCallsign(s: seq<byte>) {
    |s| <= 6 && forall i :: 0 <= i < |s| ==> 0 < s[i] < 128 && s[i] != 32
  }

  lemma {:induction false} CutKeeps(s: seq<byte>, room: nat)
    ensures Cut(s, room) == s <==> |s| <= room && forall i :: 0 <= i < |s| ==> 0 < s[i] < 128 && s[i] != 32
    ensures |Cut(s, room)| <= room && |Cut(s, room)| <= |s|
    decreases room
  {
    if room > 0 && s != [] && s[0] % 128 != 0 && s[0] % 128 != 32 {
      CutKeeps(s[1..], room - 1);
      assert s == [s[0]] + s[1..];
      assert Cut(s, room)[1..] == Cut(s[1..], room - 1);
    }
  }

  /** The bytes of a callsign, filled up with spaces. */
  function Padded(s: seq<byte>, room: nat): (r: seq<byte>)
    ensures |r| == room && forall i :: 0 <= i < room ==> r[i] == NameByte(s, i)
  {
    if room == 0 then [] else [NameByte(s, 0)] + Padded(if s == [] then s else s[1..], room - 1)
  }

  lemma {:induction false} NameEnded(s: seq<byte>, room: nat)
    ensures Name(Padded(s, room), true) == (true, [])
    decreases room
  {
    if room > 0 {
      NameEnded(if s == [] then s else s[1..], room - 1);
    }
  }

  lemma NameStep(x: byte, rest: seq<byte>)
    requires x % 2 == 0
    ensures Name([x] + rest, false)
            == if x == 0 || x == 64 then Name(rest, true) else (Name(rest, false).0, [x / 2] + Name(rest, false).1)
  {
    assert ([x] + rest)[1..] == rest;
  }

  lemma ShiftedBack(c: byte)
    ensures Shifted(c) % 2 == 0 && Shifted(c) / 2 == c % 128
    ensures (Shifted(c) == 0 <==> c % 128 == 0) && (Shifted(c) == 64 <==> c % 128 == 32)
  {
  }

  lemma {:induction false} NameOfPadded(s: seq<byte>, room: nat)
    ensures Name(Padded(s, room), false) == (true, Cut(s, room))
    decreases room
  {
    hide Name, Shifted;
    if room == 0 {
      NoName();
    } else {
      var rest := if s == [] then s else s[1..];
      NameEnded(rest, room - 1);
      NameOfPadded(rest, room - 1);
      if s != [] { ShiftedBack(s[0]); }
      NameStep(NameByte(s, 0), Padded(rest, room - 1));
    }
  }

  lemma NoName()
    ensures Name([], false) == (true, [])
  {
  }

  lemma LastByteRead(a: Address)
    ensures LastByte(a) % 2 == 1 <==> a.endMark
    ensures LastByte(a) / 2 % 16 == a.ssid % 16
    ensures LastByte(a) >= 128 <==> a.repeated || a.ssid % 128 >= 64
  {
    hide Shifted;
    ShiftedBack(a.ssid);
    FlagsApart(Shifted(a.ssid), a.ssid, a.repeated, a.endMark);
  }

  lemma FlagsApart(shifted: byte, c: byte, high: bool, low: bool)
    requires shifted % 2 == 0 && shifted / 2 == c % 128
    ensures var b := (if high && shifted < 128 then shifted + 128 else shifted) + if low then 1 else 0;
            (b % 2 == 1 <==> low) && b / 2 % 16 == c % 16 && (b >= 128 <==> high || c % 128 >= 64)
  {
    var b := (if high && shifted < 128 then shifted + 128 else shifted) + if low then 1 else 0;
    assert b / 2 == shifted / 2 || b / 2 == shifted / 2 + 64;
    assert c % 128 % 16 == c % 16;
  }

  function ReadBack(a: Address): Address {
    Address(true, Cut(a.address, 6), 48 + a.ssid % 16, a.endMark, a.repeated || a.ssid % 128 >= 64)
  }

  /** Any address, written and read again. */
  lemma WrittenIsRead(a: Address)
    ensures ReadAddress(WriteAddress(a)) == ReadBack(a)
  {
    hide Name, Cut;
    NameOfPadded(a.address, 6);
    assert WriteAddress(a)[..6] == Padded(a.address, 6);
    LastByteRead(a);
  }

  lemma {:induction false} NamePlain(bytes: seq<byte>, end: bool)
    ensures var n := Name(bytes, end).1;
            |n| <= |bytes| && forall i :: 0 <= i < |n| ==> 0 < n[i] < 128 && n[i] != 32
    decreases |bytes|
  {
    if bytes != [] && bytes[0] % 2 == 0 {
      NamePlain(bytes[1..], true);
      NamePlain(bytes[1..], false);
    }
  }

  /** A valid address that has been read survives being written and read again, flags and all. */
  lemma AddressRoundTrip(bytes: seq<byte>)
    requires ReadAddress(bytes).valid
    ensures ReadAddress(WriteAddress(ReadAddress(bytes))) == ReadAddress(bytes)
  {
    hide WriteAddress;
    var a := ReadAddress(bytes);
    NamePlain(bytes[..6], false);
    CutKeeps(a.address, 6);
    WrittenIsRead(a);
  }

  /** One that is made from a callsign keeps it exactly when the callsign is plain, and never its SSID. */
  lemma CallsignRoundTrip(callsign: seq<byte>, ssid: byte, endMark: bool, repeated: bool)
    ensures var a := ReadAddress(WriteAddress(NewAddress(callsign, ssid, endMark, repeated)));
            && a.valid && a.endMark == endMark && a.repeated == repeated && a.ssid == 49
            && (a.address == callsign <==> PlainCallsign(callsign))
  {
    WrittenIsRead(NewAddress(callsign, ssid, endMark, repeated));
    CutKeeps(callsign, 6);
  }

  lemma {:induction false} NameValid(bytes: seq<byte>, end: bool)
    ensures Name(bytes, end).0 <==> forall i :: 0 <= i < |bytes| ==> bytes[i] % 2 == 0
    decreases |bytes|
  {
    if bytes != [] && bytes[0] % 2 == 0 {
      NameValid(bytes[1..], true);
      NameValid(bytes[1..], false);
      assert bytes == [bytes[0]] + bytes[1..];
    }
  }

  /** Seven bytes are an address exactly if none of the first six has its lowest bit set, before or behind
      the end of the name. */
  lemma ValidExactly(bytes: seq<byte>)
    ensures ReadAddress(bytes).valid <==> |bytes| >= 7 && forall i :: 0 <= i < 6 ==> bytes[i] % 2 == 0
  {
    hide Name;
    if |bytes| >= 7 {
      NameValid(bytes[..6], false);
      assert forall i :: 0 <= i < 6 ==> bytes[..6][i] == bytes[i];
    }
  }

  /** An address as AX.25 has it on the wire: six characters shifted by one bit, filled up with spaces,
      and a byte of repeat flag, two reserved bits, the SSID in four bits, and the end mark. */
  function OnWire(callsign: seq<byte>, ssid: nat, reserved: nat, endMark: bool, repeated: bool): (r: seq<byte>)
    requires PlainCallsign(callsign) && ssid < 16 && reserved < 4
    ensures |r| == 7
  {
    seq(6, i requires 0 <= i < 6 => if i < |callsign| then 2 * callsign[i] else 2 * 32)
    + [FlagByte(ssid, reserved, endMark, repeated)]
  }

  function FlagByte(ssid: nat, reserved: nat, endMark: bool, repeated: bool): byte
    requires ssid < 16 && reserved < 4
  {
    (if repeated then 128 else 0) + 32 * reserved + 2 * ssid + if endMark then 1 else 0
  }

  /** Reading takes each part from its place, whatever the reserved bits. */
  lemma AddressOnWire(callsign: seq<byte>, ssid: nat, reserved: nat, endMark: bool, repeated: bool)
    requires PlainCallsign(callsign) && ssid < 16 && reserved < 4
    ensures ReadAddress(OnWire(callsign, ssid, reserved, endMark, repeated))
            == Address(true, callsign, 48 + ssid, endMark, repeated)
  {
    hide Name, Cut, FlagByte, OnWire, PlainCallsign;
    var wire := OnWire(callsign, ssid, reserved, endMark, repeated);
    WireName(callsign, ssid, reserved, endMark, repeated);
    NameOfPadded(callsign, 6);
    PlainKept(callsign);
    FlagsRead(ssid, reserved, endMark, repeated);
  }

  lemma WireName(callsign: seq<byte>, ssid: nat, reserved: nat, endMark: bool, repeated: bool)
    requires PlainCallsign(callsign) && ssid < 16 && reserved < 4
    ensures var wire := OnWire(callsign, ssid, reserved, endMark, repeated);
            wire[..6] == Padded(callsign, 6) && wire[6] == FlagByte(ssid, reserved, endMark, repeated)
  {
    hide FlagByte;
    assert forall i :: 0 <= i < 6 ==> NameByte(callsign, i) == if i < |callsign| then 2 * callsign[i] else 64;
  }

  lemma PlainKept(callsign: seq<byte>)
    requires PlainCallsign(callsign)
    ensures Cut(callsign, 6) == callsign
  {
    CutKeeps(callsign, 6);
  }

  lemma FlagsRead(ssid: nat, reserved: nat, endMark: bool, repeated: bool)
    requires ssid < 16 && reserved < 4
    ensures var b := FlagByte(ssid, reserved, endMark, repeated);
            b / 2 % 16 == ssid && (b % 2 == 1 <==> endMark) && (b >= 128 <==> repeated)
  {
    var high := (if repeated then 64 else 0) + 16 * reserved;
    assert FlagByte(ssid, reserved, endMark, repeated) / 2 == high + ssid;
  }

  /** Writing what was read puts each part back there, and sets the reserved bits. */
  lemma WrittenOnWire(callsign: seq<byte>, ssid: nat, endMark: bool, repeated: bool)
    requires PlainCallsign(callsign) && ssid < 16
    ensures WriteAddress(Address(true, callsign, 48 + ssid, endMark, repeated))
            == OnWire(callsign, ssid, 3, endMark, repeated)
  {
    var a := Address(true, callsign, 48 + ssid, endMark, repeated);
    assert LastByte(a) == FlagByte(ssid, 3, endMark, repeated);
    assert forall i :: 0 <= i < 6 ==> NameByte(callsign, i) == if i < |callsign| then 2 * callsign[i] else 64;
  }

  // ----- packets come back

  /** What reading makes of a written packet. */
  function PacketBack(f: Fields): Fields {
    Fields(true, ReadBack(f.from), ReadBack(f.to), [], 0,
           if HasMsgNr(f.control) then f.msgNr else None,
           if HasPid(f.control) then f.pid else None,
           if |f.data| == 1 then [] else f.data)
  }

  function Tail(f: Fields): seq<byte>
    requires WritePacket(f).Written?
  {
    (if HasMsgNr(f.control) then [f.msgNr.value] else []) + (if HasPid(f.control) then [f.pid.value] else []) + f.data
  }

  /** Where the parts behind the addresses are. */
  lemma Parts(bytes: seq<byte>, control: byte, number: seq<byte>, pid: seq<byte>, data: seq<byte>)
    requires |bytes| >= 14 && bytes[14..] == [control] + (number + pid + data)
    ensures var p := 15 + |number| + |pid|;
            && |bytes| == p + |data| && bytes[14] == control && bytes[p..] == data
            && (|number| == 1 ==> bytes[15] == number[0])
            && (|pid| == 1 ==> bytes[15 + |number|] == pid[0])
  {
    var t := bytes[14..];
    assert forall i :: 0 <= i < |t| ==> t[i] == bytes[14 + i];
    assert t[1 + |number| + |pid|..] == data;
    assert |number| == 1 ==> t[1] == number[0];
    assert |pid| == 1 ==> t[1 + |number|] == pid[0];
    assert bytes[15 + |number| + |pid|..] == t[1 + |number| + |pid|..];
  }

  lemma RestRead(bytes: seq<byte>, f: Fields, g: Fields)
    requires WritePacket(f).Written? && |bytes| >= 14 && bytes[14..] == [f.control] + Tail(f)
    requires g.msgNr == None && g.pid == None && g.data == []
    ensures ReadRest(bytes, 14, g)
            == Read(g.(valid := true, msgNr := PacketBack(f).msgNr, pid := PacketBack(f).pid, data := PacketBack(f).data))
  {
    hide WriteAddress, ReadBack, HasMsgNr, HasPid;
    var number := if HasMsgNr(f.control) then [f.msgNr.value] else [];
    var pid := if HasPid(f.control) then [f.pid.value] else [];
    Parts(bytes, f.control, number, pid, f.data);
    EmptyOrMore(f.data);
  }

  lemma EmptyOrMore(s: seq<byte>)
    ensures |s| == 0 ==> s == []
  {
  }

  /** A packet with the sender's end mark is read back, up to what addresses lose, the control byte, and
      data of a single byte. */
  lemma PacketReadBack(f: Fields)
    requires WritePacket(f).Written? && f.from.endMark
    ensures ReadPacket(WritePacket(f).bytes) == Read(PacketBack(f))
  {
    hide WriteAddress, ReadAddress, ReadRest, HasMsgNr, HasPid;
    var b := WritePacket(f).bytes;
    assert b == WriteAddress(f.to) + WriteAddress(f.from) + ([f.control] + Tail(f));
    assert b[..7] == WriteAddress(f.to) && b[7..14] == WriteAddress(f.from) && b[14..] == [f.control] + Tail(f);
    WrittenIsRead(f.to);
    WrittenIsRead(f.from);
    RestRead(b, f, NO_FIELDS.(to := ReadBack(f.to), from := ReadBack(f.from)));
  }

  /** Without it what follows is taken for repeaters: the packet never comes back as one without any. */
  lemma EndMarkNeeded(f: Fields)
    requires WritePacket(f).Written? && !f.from.endMark
    ensures var r := ReadPacket(WritePacket(f).bytes);
            r.Read? && r.fields.valid ==> |r.fields.seenBy| > 0
  {
    hide WriteAddress, ReadAddress, ReadRest, HasMsgNr, HasPid;
    var b := WritePacket(f).bytes;
    assert b == WriteAddress(f.to) + WriteAddress(f.from) + ([f.control] + Tail(f));
    assert b[7..14] == WriteAddress(f.from);
    WrittenIsRead(f.from);
    RepeatersKept(b, 14, 0, false, NO_FIELDS.(to := Assigned(ReadAddress(b[..7])), from := ReadBack(f.from)));
  }

  lemma RepeatersKept(bytes: seq<byte>, offset: nat, n: nat, endMark: bool, f: Fields)
    requires offset <= |bytes| && !f.valid
    ensures var r := ReadRepeaters(bytes, offset, n, endMark, f);
            r.Read? ==> |r.fields.seenBy| >= |f.seenBy|
    ensures var r := ReadRepeaters(bytes, offset, n, endMark, f);
            n < 2 && !endMark && r.Read? && r.fields.valid ==> |r.fields.seenBy| > |f.seenBy|
    decreases 2 - n
  {
    hide ReadAddress, HasMsgNr, HasPid;
    if n < 2 && !endMark && offset + 7 <= |bytes| {
      var a := ReadAddress(bytes[offset..offset + 7]);
      if a.valid {
        RepeatersKept(bytes, offset + 7, n + 1, a.endMark, f.(seenBy := f.seenBy + [a]));
      }
    }
  }

  /** A U frame built with the setters and the sender's end mark: end marks, repeat flags and PID
      always come back; callsigns and data exactly when they are plain and not one byte. */
  lemma UFrameRoundTrip(to: seq<byte>, toSsid: byte, toEnd: bool, toRepeated: bool,
                        from: seq<byte>, fromSsid: byte, fromRepeated: bool,
                        control: byte, pid: byte, data: seq<byte>)
    requires control % 4 == 3
    ensures var f := NO_FIELDS.(to := NewAddress(to, toSsid, toEnd, toRepeated), control := control, pid := Some(pid),
                                from := NewAddress(from, fromSsid, true, fromRepeated), data := data);
            && WritePacket(f).Written?
            && var r := ReadPacket(WritePacket(f).bytes);
            && r.Read? && r.fields.valid && r.fields.seenBy == [] && r.fields.pid == Some(pid)
            && r.fields.to.endMark == toEnd && r.fields.to.repeated == toRepeated
            && r.fields.from.endMark && r.fields.from.repeated == fromRepeated
            && (r.fields.to.address == to <==> PlainCallsign(to))
            && (r.fields.from.address == from <==> PlainCallsign(from))
            && (r.fields.data == data <==> |data| != 1)
  {
    hide WriteAddress, ReadPacket, Cut;
    var f := NO_FIELDS.(to := NewAddress(to, toSsid, toEnd, toRepeated), control := control, pid := Some(pid),
                        from := NewAddress(from, fromSsid, true, fromRepeated), data := data);
    PacketReadBack(f);
    CutKeeps(to, 6);
    CutKeeps(from, 6);
  }

  // ----- digipeated packets

  function Flat(route: seq<seq<byte>>): seq<byte> {
    if route == [] then [] else route[0] + Flat(route[1..])
  }

  function AddressesOf(route: seq<seq<byte>>): seq<Address> {
    if route == [] then [] else [ReadAddress(route[0])] + AddressesOf(route[1..])
  }

  /** Seven bytes that are an address, with or without the end mark. */
  predicate Hop(bytes: seq<byte>, endMark: bool) {
    |bytes| == 7 && ReadAddress(bytes).valid && (bytes[6] % 2 == 1) == endMark
  }

  /** The sender and at most two repeaters, of which the last has the end mark and no other; two repeaters
      may also be without any. */
  predicate Route(sender: seq<byte>, repeaters: seq<seq<byte>>) {
    match |repeaters|
    case 0 => Hop(sender, true)
    case 1 => Hop(sender, false) && Hop(repeaters[0], true)
    case 2 => Hop(sender, false) && Hop(repeaters[0], false) && (Hop(repeaters[1], true) || Hop(repeaters[1], false))
    case _ => false
  }

  /** A single byte is not data. */
  function Payload(s: seq<byte>): seq<byte> {
    if |s| == 1 then [] else s
  }

  /** What follows a control byte: I frames have a number and a PID, S frames a number, U frames a PID. */
  function Follows(f: Fields, control: byte, behind: seq<byte>): Reading {
    match control % 4
    case 0 =>
      if |behind| < 2 then PastEnd
      else Read(f.(valid := true, msgNr := Some(behind[0]), pid := Some(behind[1]), data := Payload(behind[2..])))
    case 1 =>
      if |behind| < 1 then PastEnd
      else Read(f.(valid := true, msgNr := Some(behind[0]), data := Payload(behind[1..])))
    case 2 => Read(f.(valid := true, data := Payload(behind)))
    case _ =>
      if |behind| < 1 then PastEnd
      else Read(f.(valid := true, pid := Some(behind[0]), data := Payload(behind[1..])))
  }

  lemma Behind(bytes: seq<byte>, offset: nat, control: byte, behind: seq<byte>)
    requires offset <= |bytes| && bytes[offset..] == [control] + behind
    ensures |bytes| == offset + 1 + |behind| && bytes[offset] == control && bytes[offset + 1..] == behind
    ensures |behind| >= 1 ==> bytes[offset + 1] == behind[0] && bytes[offset + 2..] == behind[1..]
    ensures |behind| >= 2 ==> bytes[offset + 2] == behind[1] && bytes[offset + 3..] == behind[2..]
  {
    var t := bytes[offset..];
    assert bytes[offset] == t[0] && bytes[offset + 1..] == t[1..];
    assert |behind| >= 1 ==> bytes[offset + 1] == t[1] && bytes[offset + 2..] == t[2..];
    assert |behind| >= 2 ==> bytes[offset + 2] == t[2] && bytes[offset + 3..] == t[3..];
  }

  lemma RestFollows(bytes: seq<byte>, offset: nat, f: Fields, control: byte, behind: seq<byte>)
    requires offset <= |bytes| && bytes[offset..] == [control] + behind
    requires f.msgNr == None && f.pid == None && f.data == []
    ensures ReadRest(bytes, offset, f) == Follows(f, control, behind)
  {
    Behind(bytes, offset, control, behind);
    EmptyOrMore(behind);
    if |behind| >= 1 { EmptyOrMore(behind[1..]); }
    if |behind| >= 2 { EmptyOrMore(behind[2..]); }
    RestCases(bytes, offset, f, control, behind);
  }

  lemma RestCases(bytes: seq<byte>, offset: nat, f: Fields, control: byte, behind: seq<byte>)
    requires |bytes| == offset + 1 + |behind| && bytes[offset] == control && bytes[offset + 1..] == behind
    requires |behind| >= 1 ==> bytes[offset + 1] == behind[0] && bytes[offset + 2..] == behind[1..]
    requires |behind| >= 2 ==> bytes[offset + 2] == behind[1] && bytes[offset + 3..] == behind[2..]
    requires f.msgNr == None && f.pid == None && f.data == []
    requires (|behind| == 0 ==> behind == []) && (|behind| == 1 ==> behind[1..] == []) && (|behind| == 2 ==> behind[2..] == [])
    ensures ReadRest(bytes, offset, f) == Follows(f, control, behind)
  {
  }

  /** One more repeater is read, unless it is no address. */
  lemma HopRead(bytes: seq<byte>, offset: nat, next: nat, n: nat, f: Fields, hop: seq<byte>, rest: seq<byte>)
    requires offset <= |bytes| && |hop| == 7 && bytes[offset..] == hop + rest && next == offset + 7 && n < 2
    ensures next <= |bytes| && bytes[next..] == rest
    ensures ReadRepeaters(bytes, offset, n, false, f)
            == var a := ReadAddress(hop);
               if a.valid then ReadRepeaters(bytes, next, n + 1, a.endMark, f.(seenBy := f.seenBy + [a])) else Read(f)
  {
    hide ReadAddress, ReadRest;
    assert bytes[offset..next] == bytes[offset..][..7];
    assert bytes[next..] == bytes[offset..][7..];
  }

  lemma HopsDone(bytes: seq<byte>, offset: nat, n: nat, endMark: bool, f: Fields, control: byte, behind: seq<byte>)
    requires offset <= |bytes| && bytes[offset..] == [control] + behind && (n >= 2 || endMark)
    requires f.msgNr == None && f.pid == None && f.data == []
    ensures ReadRepeaters(bytes, offset, n, endMark, f) == Follows(f, control, behind)
  {
    hide ReadRest, Follows;
    RestFollows(bytes, offset, f, control, behind);
  }

  lemma HopMark(bytes: seq<byte>, endMark: bool)
    requires Hop(bytes, endMark)
    ensures |bytes| == 7 && ReadAddress(bytes).valid && ReadAddress(bytes).endMark == endMark
  {
    hide Name;
  }

  /** The first two addresses. */
  lemma HeadRead(to: seq<byte>, sender: seq<byte>, rest: seq<byte>)
    requires |to| == 7 && |sender| == 7 && ReadAddress(sender).valid
    ensures var bytes := to + sender + rest;
            bytes[14..] == rest
            && ReadPacket(bytes) == ReadRepeaters(bytes, 14, 0, ReadAddress(sender).endMark,
                                                  Fields(false, ReadAddress(sender), ReadAddress(to).(valid := true), [],
                                                         0, None, None, []))
  {
    hide ReadAddress, ReadRepeaters;
    var bytes := to + sender + rest;
    assert bytes[..7] == to && bytes[7..14] == sender && bytes[14..] == rest;
  }

  /** A packet by way of up to two repeaters: each address is read from its place, the repeaters in order,
      and everything else from behind them. */
  lemma PacketByRoute(to: seq<byte>, sender: seq<byte>, repeaters: seq<seq<byte>>, control: byte, behind: seq<byte>)
    requires |to| == 7 && Route(sender, repeaters)
    ensures ReadPacket(to + sender + Flat(repeaters) + [control] + behind)
            == Follows(Fields(false, ReadAddress(sender), ReadAddress(to).(valid := true), AddressesOf(repeaters),
                              0, None, None, []),
                       control, behind)
  {
    hide ReadAddress, ReadRepeaters, ReadPacket, Follows, Hop;
    var rest := [control] + behind;
    var f := Fields(false, ReadAddress(sender), ReadAddress(to).(valid := true), [], 0, None, None, []);
    var bytes := to + sender + (Flat(repeaters) + rest);
    assert bytes == to + sender + Flat(repeaters) + [control] + behind;
    HopMark(sender, repeaters == []);
    HeadRead(to, sender, Flat(repeaters) + rest);
    if repeaters == [] {
      assert Flat(repeaters) + rest == rest;
      HopsDone(bytes, 14, 0, true, f, control, behind);
    } else {
      RepeatersRead(bytes, repeaters, rest, f, control, behind);
    }
  }

  lemma RepeatersRead(bytes: seq<byte>, repeaters: seq<seq<byte>>, rest: seq<byte>, f: Fields,
                      control: byte, behind: seq<byte>)
    requires |bytes| >= 14 && bytes[14..] == Flat(repeaters) + rest && rest == [control] + behind
    requires 1 <= |repeaters| <= 2
    requires if |repeaters| == 1 then Hop(repeaters[0], true)
             else Hop(repeaters[0], false) && (Hop(repeaters[1], true) || Hop(repeaters[1], false))
    requires f.seenBy == [] && f.msgNr == None && f.pid == None && f.data == []
    ensures ReadRepeaters(bytes, 14, 0, false, f) == Follows(f.(seenBy := AddressesOf(repeaters)), control, behind)
  {
    hide *;
    if |repeaters| == 1 {
      OnlyOne(repeaters);
      OneRepeater(bytes, repeaters[0], rest, f, control, behind);
    } else {
      BothOf(repeaters, rest);
      TwoRepeaters(bytes, repeaters[0], repeaters[1], rest, f, control, behind);
    }
  }

  lemma OnlyOne(repeaters: seq<seq<byte>>)
    requires |repeaters| == 1
    ensures Flat(repeaters) == repeaters[0] && AddressesOf(repeaters) == [ReadAddress(repeaters[0])]
  {
    hide ReadAddress;
  }

  lemma BothOf(repeaters: seq<seq<byte>>, rest: seq<byte>)
    requires |repeaters| == 2
    ensures Flat(repeaters) + rest == repeaters[0] + (repeaters[1] + rest)
    ensures AddressesOf(repeaters) == [ReadAddress(repeaters[0]), ReadAddress(repeaters[1])]
  {
    hide ReadAddress;
    OnlyOne(repeaters[1..]);
  }

  lemma OneRepeater(bytes: seq<byte>, hop: seq<byte>, rest: seq<byte>, f: Fields, control: byte, behind: seq<byte>)
    requires |bytes| >= 14 && bytes[14..] == hop + rest && rest == [control] + behind && Hop(hop, true)
    requires f.seenBy == [] && f.msgNr == None && f.pid == None && f.data == []
    ensures ReadRepeaters(bytes, 14, 0, false, f) == Follows(f.(seenBy := [ReadAddress(hop)]), control, behind)
  {
    hide *;
    HopMark(hop, true);
    HopRead(bytes, 14, 21, 0, f, hop, rest);
    assert f.seenBy + [ReadAddress(hop)] == [ReadAddress(hop)];
    HopsDone(bytes, 21, 1, true, f.(seenBy := [ReadAddress(hop)]), control, behind);
  }

  lemma TwoRepeaters(bytes: seq<byte>, first: seq<byte>, second: seq<byte>, rest: seq<byte>, f: Fields,
                     control: byte, behind: seq<byte>)
    requires |bytes| >= 14 && bytes[14..] == first + (second + rest) && rest == [control] + behind
    requires Hop(first, false) && (Hop(second, true) || Hop(second, false))
    requires f.seenBy == [] && f.msgNr == None && f.pid == None && f.data == []
    ensures ReadRepeaters(bytes, 14, 0, false, f)
            == Follows(f.(seenBy := [ReadAddress(first), ReadAddress(second)]), control, behind)
  {
    hide *;
    var a, b := ReadAddress(first), ReadAddress(second);
    HopMark(first, false);
    if Hop(second, true) { HopMark(second, true); } else { HopMark(second, false); }
    HopRead(bytes, 14, 21, 0, f, first, second + rest);
    assert f.seenBy + [a] == [a] && [a] + [b] == [a, b];
    HopRead(bytes, 21, 28, 1, f.(seenBy := [a]), second, rest);
    HopsDone(bytes, 28, 2, b.endMark, f.(seenBy := [a, b]), control, behind);
  }

  /** A repeater that is no address makes the packet invalid; one before it is kept. */
  lemma BadRepeater(to: seq<byte>, sender: seq<byte>, repeaters: seq<seq<byte>>, bad: seq<byte>, behind: seq<byte>)
    requires |to| == 7 && Hop(sender, false) && |repeaters| <= 1 && |bad| == 7 && !ReadAddress(bad).valid
    requires repeaters != [] ==> Hop(repeaters[0], false)
    ensures ReadPacket(to + sender + Flat(repeaters) + bad + behind)
            == Read(Fields(false, ReadAddress(sender), ReadAddress(to).(valid := true), AddressesOf(repeaters),
                           0, None, None, []))
  {
    hide ReadAddress, ReadRepeaters, ReadPacket, Hop;
    var rest := bad + behind;
    var f := Fields(false, ReadAddress(sender), ReadAddress(to).(valid := true), [], 0, None, None, []);
    var bytes := to + sender + (Flat(repeaters) + rest);
    assert bytes == to + sender + Flat(repeaters) + bad + behind;
    HopMark(sender, false);
    HeadRead(to, sender, Flat(repeaters) + rest);
    if repeaters == [] {
      assert Flat(repeaters) + rest == rest;
      HopRead(bytes, 14, 21, 0, f, bad, behind);
    } else {
      OnlyOne(repeaters);
      BadSecond(bytes, repeaters[0], bad, behind, f);
    }
  }

  lemma BadSecond(bytes: seq<byte>, hop: seq<byte>, bad: seq<byte>, behind: seq<byte>, f: Fields)
    requires |bytes| >= 14 && bytes[14..] == hop + (bad + behind) && Hop(hop, false)
    requires |bad| == 7 && !ReadAddress(bad).valid && f.seenBy == []
    ensures ReadRepeaters(bytes, 14, 0, false, f) == Read(f.(seenBy := [ReadAddress(hop)]))
  {
    hide *;
    var a := ReadAddress(hop);
    HopMark(hop, false);
    HopRead(bytes, 14, 21, 0, f, hop, bad + behind);
    assert f.seenBy + [a] == [a];
    HopRead(bytes, 21, 28, 1, f.(seenBy := [a]), bad, behind);
  }

  /** Without both addresses nothing is read; what is too short for a control byte, or for a repeater that
      must follow, is read past its end. */
  lemma TooShort(bytes: seq<byte>)
    ensures |bytes| < 14 ==> ReadPacket(bytes).Read? && !ReadPacket(bytes).fields.valid
    ensures |bytes| == 14 ==> ReadPacket(bytes) == PastEnd
    ensures 14 <= |bytes| < 21 && Hop(bytes[7..14], false) ==> ReadPacket(bytes) == PastEnd
  {
    hide Name;
  }

  // ----- what is not kept or checked

  lemma ReadLeaves(bytes: seq<byte>, offset: nat, n: nat, endMark: bool, f: Fields)
    requires offset <= |bytes| && !f.valid && f.control == 0
    ensures var r := ReadRepeaters(bytes, offset, n, endMark, f);
            r.Read? && r.fields.valid ==> r.fields.control == 0
    decreases 2 - n
  {
    hide ReadAddress;
    if n < 2 && !endMark && offset + 7 <= |bytes| {
      var a := ReadAddress(bytes[offset..offset + 7]);
      if a.valid {
        ReadLeaves(bytes, offset + 7, n + 1, a.endMark, f.(seenBy := f.seenBy + [a]));
      }
    }
  }

  /** The control byte is not kept, so only a packet that had both number and PID, an I frame, can be
      written again after reading. */
  lemma RewritingNeedsBoth(bytes: seq<byte>)
    requires ReadPacket(bytes).Read? && ReadPacket(bytes).fields.valid
    ensures var f := ReadPacket(bytes).fields;
            f.control == 0 && (WritePacket(f).Written? <==> f.msgNr.Some? && f.pid.Some?)
  {
    hide ReadAddress, WriteAddress, ReadRepeaters;
    var to := Assigned(ReadAddress(bytes[..7]));
    var from := Assigned(ReadAddress(bytes[7..14]));
    ReadLeaves(bytes, 14, 0, from.endMark, NO_FIELDS.(to := to, from := from));
  }

  lemma SameFrom14(b: seq<byte>, c: seq<byte>, offset: nat, n: nat, endMark: bool, f: Fields, to: Address)
    requires 14 <= offset <= |b| == |c| && b[14..] == c[14..]
    ensures var r := ReadRepeaters(b, offset, n, endMark, f);
            ReadRepeaters(c, offset, n, endMark, f.(to := to)) == if r.Read? then Read(r.fields.(to := to)) else r
    decreases 2 - n
  {
    hide ReadAddress, HasMsgNr, HasPid;
    assert forall i :: 14 <= i < |b| ==> b[i] == b[14..][i - 14] == c[14..][i - 14] == c[i];
    if n >= 2 || endMark {
      assert forall p :: 14 <= p <= |b| ==> b[p..] == c[p..];
    } else if offset + 7 <= |b| {
      assert b[offset..offset + 7] == c[offset..offset + 7];
      var a := ReadAddress(b[offset..offset + 7]);
      if a.valid {
        SameFrom14(b, c, offset + 7, n + 1, a.endMark, f.(seenBy := f.seenBy + [a]), to);
      }
    }
  }

  /** The destination is never rejected: whatever seven bytes stand there, the rest is read the same. */
  lemma DestinationIsNotChecked(bytes: seq<byte>, to: seq<byte>)
    requires |to| == 7 && |bytes| >= 14
    ensures var r := ReadPacket(bytes);
            ReadPacket(to + bytes[7..])
            == if r.Read? then Read(r.fields.(to := Assigned(ReadAddress(to)))) else r
  {
    hide ReadAddress, ReadRepeaters;
    var c := to + bytes[7..];
    assert c[..7] == to && c[7..14] == bytes[7..14] && c[14..] == bytes[14..];
    var from := Assigned(ReadAddress(bytes[7..14]));
    SameFrom14(bytes, c, 14, 0, from.endMark, NO_FIELDS.(to := Assigned(ReadAddress(bytes[..7])), from := from),
               Assigned(ReadAddress(to)));
  }
}
