/** Base64 (RFC 4648, section 4): three bytes at a time into four characters, and back. */
module Base64 {
  import opened Bytes

  /** The alphabet by place: the capitals, the small letters, the digits, '+' and '/'. */
  function Base64Char(i: nat): char
    requires i < 64
  {
    if i < 26 then 'A' + i as char
    else if i < 52 then 'a' + (i - 26) as char
    else if i < 62 then '0' + (i - 52) as char
    else if i == 62 then '+' else '/'
  }

  /** A byte that no character of the alphabet has for its place: what a failed search leaves. */
  const NOT_FOUND: byte := 255

  predicate IsBase64(c: char) {
    'A' <= c <= 'Z' || 'a' <= c <= 'z' || '0' <= c <= '9' || c == '+' || c == '/'
  }

  /** The first place from `from` on that holds c, or 64. */
  function Find(c: char, from: nat): (k: nat)
    requires from <= 64
    ensures from <= k <= 64 && (k < 64 ==> Base64Char(k) == c)
    decreases 64 - from
  {
    if from == 64 || Base64Char(from) == c then from else Find(c, from + 1)
  }

  function Place(c: char): byte {
    var k := Find(c, 0);
    if k == 64 then NOT_FOUND else k
  }

  // ----- three bytes and four characters

  function First(a: byte): byte { a / 4 }
  function Second(a: byte, b: byte): byte { a % 4 * 16 + b / 16 }
  function Third(b: byte, c: byte): byte { b % 16 * 4 + c / 64 }
  function Fourth(c: byte): byte { c % 64 }

  function Quad(a: byte, b: byte, c: byte): (r: string)
    ensures |r| == 4
  {
    [Base64Char(First(a)), Base64Char(Second(a, b)), Base64Char(Third(b, c)), Base64Char(Fourth(c))]
  }

  /** Whole groups of three, then what is left of the last one, filled up with '='. */
  function Encode(b: seq<byte>): string {
    if b == [] then ""
    else if |b| == 1 then Quad(b[0], 0, 0)[..2] + "=="
    else if |b| == 2 then Quad(b[0], b[1], 0)[..3] + "="
    else Quad(b[0], b[1], b[2]) + Encode(b[3..])
  }

  function Byte0(p: byte, q: byte): byte { (p * 4 + q / 16 % 4) % 256 }
  function Byte1(q: byte, r: byte): byte { (q % 16 * 16 + r / 4 % 16) % 256 }
  function Byte2(r: byte, s: byte): byte { (r % 4 * 64 + s) % 256 }

  /** The bytes of characters that are all in the alphabet; a last group of one gives nothing. */
  function DecodeGroups(s: string): seq<byte> {
    if |s| <= 1 then []
    else if |s| == 2 then [Byte0(Place(s[0]), Place(s[1]))]
    else if |s| == 3 then [Byte0(Place(s[0]), Place(s[1])), Byte1(Place(s[1]), Place(s[2]))]
    else
      [Byte0(Place(s[0]), Place(s[1])), Byte1(Place(s[1]), Place(s[2])), Byte2(Place(s[2]), Place(s[3]))]
      + DecodeGroups(s[4..])
  }

  /** The part before the first character outside the alphabet, such as '='. */
  function Leading(s: string): (r: string) {
    if s == "" || !IsBase64(s[0]) then "" else [s[0]] + Leading(s[1..])
  }

  function Decode(s: string): seq<byte> {
    DecodeGroups(Leading(s))
  }

  // ----- the alphabet

  lemma DistinctPlaces(i: nat, j: nat)
    requires i < 64 && j < 64 && Base64Char(i) == Base64Char(j)
    ensures i == j
  {
  }

  /** Table 1 of RFC 4648: the 48 bytes whose groups of six bits count from 0 to 63. */
  lemma Capitals()
    ensures Quad(0x00, 0x10, 0x83) == "ABCD" && Quad(0x10, 0x51, 0x87) == "EFGH" && Quad(0x20, 0x92, 0x8b) == "IJKL"
    ensures Quad(0x30, 0xd3, 0x8f) == "MNOP" && Quad(0x41, 0x14, 0x93) == "QRST" && Quad(0x51, 0x55, 0x97) == "UVWX"
  {
  }

  lemma SmallLetters()
    ensures Quad(0x61, 0x96, 0x9b) == "YZab" && Quad(0x71, 0xd7, 0x9f) == "cdef" && Quad(0x82, 0x18, 0xa3) == "ghij"
    ensures Quad(0x92, 0x59, 0xa7) == "klmn" && Quad(0xa2, 0x9a, 0xab) == "opqr" && Quad(0xb2, 0xdb, 0xaf) == "stuv"
  {
  }

  lemma DigitsAndSigns()
    ensures Quad(0xc3, 0x1c, 0xb3) == "wxyz" && Quad(0xd3, 0x5d, 0xb7) == "0123"
    ensures Quad(0xe3, 0x9e, 0xbb) == "4567" && Quad(0xf3, 0xdf, 0xbf) == "89+/"
  {
  }

  lemma {:induction false} FindIs(i: nat, from: nat)
    requires from <= i < 64
    ensures Find(Base64Char(i), from) == i
    decreases i - from
  {
    hide Base64Char;
    if Base64Char(from) == Base64Char(i) {
      DistinctPlaces(from, i);
    } else {
      FindIs(i, from + 1);
    }
  }

  lemma PlaceOf(i: nat)
    requires i < 64
    ensures IsBase64(Base64Char(i)) && Place(Base64Char(i)) == i
  {
    FindIs(i, 0);
  }

  // ----- the loops

  /** The first n characters for three bytes. */
  method Emit(chars3: array<byte>, n: nat) returns (s: string)
    requires chars3.Length == 3 && n <= 4
    ensures s == Quad(chars3[0], chars3[1], chars3[2])[..n]
  {
    var chars4 := new byte[4];
    chars4[0] := First(chars3[0]);
    chars4[1] := Second(chars3[0], chars3[1]);
    chars4[2] := Third(chars3[1], chars3[2]);
    chars4[3] := Fourth(chars3[2]);
    ghost var quad := Quad(chars3[0], chars3[1], chars3[2]);
    s := "";
    for j := 0 to n
      invariant s == quad[..j] && forall x :: 0 <= x < 4 ==> chars4[x] < 64 && Base64Char(chars4[x]) == quad[x]
    {
      s := s + [Base64Char(chars4[j])];
    }
    assert quad == Quad(chars3[0], chars3[1], chars3[2]);
    assert s == quad[..n];
  }

  function Padding(n: nat): string {
    if n == 0 then "" else Padding(n - 1) + "="
  }

  /** The last one or two bytes. */
  method EncodeRest(chars3: array<byte>, count: nat) returns (ret: string)
    requires chars3.Length == 3 && 0 < count < 3
    modifies chars3
    ensures ret == Encode(old(chars3[..count]))
  {
    hide Quad;
    ghost var tail := chars3[..count];
    for j := count to 3
      invariant chars3[..count] == tail && forall x :: count <= x < j ==> chars3[x] == 0
    {
      chars3[j] := 0;
    }
    assert chars3[0] == tail[0] && (count == 2 ==> chars3[1] == tail[1]);
    ret := Emit(chars3, count + 1);
    ghost var quad := ret;
    var i := count;
    while i < 3
      invariant count <= i <= 3 && ret == quad + Padding(i - count)
    {
      ret := ret + "=";
      i := i + 1;
    }
    assert Padding(1) == "=" && Padding(2) == "==";
  }

  lemma EncodeStep(left: seq<byte>)
    requires |left| >= 3
    ensures Encode(left) == Quad(left[0], left[1], left[2])[..4] + Encode(left[3..])
  {
    hide Quad;
  }

  method Base64Encode(bytesToEncode: seq<byte>) returns (ret: string)
    ensures ret == Encode(bytesToEncode)
  {
    hide Quad, Encode;
    ret := "";
    var i := 0;
    var chars3 := new byte[3];
    var k := 0;
    assert chars3[..0] + bytesToEncode[0..] == bytesToEncode;
    while k < |bytesToEncode|
      invariant 0 <= i < 3 && 0 <= k <= |bytesToEncode|
      invariant ret + Encode(chars3[..i] + bytesToEncode[k..]) == Encode(bytesToEncode)
    {
      ghost var left := chars3[..i] + bytesToEncode[k..];
      chars3[i] := bytesToEncode[k];
      i := i + 1;
      k := k + 1;
      assert chars3[..i] + bytesToEncode[k..] == left;
      if i == 3 {
        EncodeStep(left);
        var quad := Emit(chars3, 4);
        assert left[3..] == bytesToEncode[k..] == chars3[..0] + bytesToEncode[k..];
        ret := ret + quad;
        i := 0;
      }
    }
    assert chars3[..i] + bytesToEncode[k..] == chars3[..i];
    if i > 0 {
      var last := EncodeRest(chars3, i);
      ret := ret + last;
    } else {
      NothingToEncode();
    }
  }

  lemma NothingToEncode()
    ensures Encode([]) == ""
  {
  }

  function Triple(c: seq<char>): (r: seq<byte>)
    requires |c| == 4
    ensures |r| == 3
  {
    [Byte0(Place(c[0]), Place(c[1])), Byte1(Place(c[1]), Place(c[2])), Byte2(Place(c[2]), Place(c[3]))]
  }

  /** The first n bytes for four characters. */
  method Merge(chars4: array<char>, n: nat) returns (bytes: seq<byte>)
    requires chars4.Length == 4 && n <= 3
    ensures bytes == Triple(chars4[..])[..n]
  {
    hide Place, Byte0, Byte1, Byte2;
    var places := new byte[4];
    for i := 0 to 4
      invariant forall x :: 0 <= x < i ==> places[x] == Place(chars4[x])
    {
      places[i] := Place(chars4[i]);
    }
    var chars3 := new byte[3];
    chars3[0] := Byte0(places[0], places[1]);
    chars3[1] := Byte1(places[1], places[2]);
    chars3[2] := Byte2(places[2], places[3]);
    bytes := [];
    assert chars3[..] == Triple(chars4[..]);
    for j := 0 to n
      invariant bytes == chars3[..j]
    {
      bytes := bytes + [chars3[j]];
    }
    assert chars3[..n] == chars3[..][..n];
  }

  /** The last characters, fewer than four. */
  method DecodeRest(chars4: array<char>, count: nat) returns (ret: seq<byte>)
    requires chars4.Length == 4 && 0 < count < 4
    modifies chars4
    ensures ret == DecodeGroups(old(chars4[..count]))
  {
    hide Place, Byte0, Byte1, Byte2;
    ghost var tail := chars4[..count];
    for j := count to 4
      invariant chars4[..count] == tail
    {
      chars4[j] := '\0';
    }
    assert forall x :: 0 <= x < count ==> chars4[x] == tail[x];
    ret := Merge(chars4, count - 1);
  }

  lemma DecodeStep(left: string)
    requires |left| >= 4
    ensures DecodeGroups(left) == Triple(left[..4])[..3] + DecodeGroups(left[4..])
  {
    hide Place, Byte0, Byte1, Byte2;
  }

  lemma LeadingStep(s: string, k: nat)
    requires k < |s| && IsBase64(s[k])
    ensures Leading(s[k..]) == [s[k]] + Leading(s[k + 1..])
  {
    hide IsBase64;
    assert s[k..][1..] == s[k + 1..];
  }

  lemma LeadingEnds(s: string, k: nat)
    requires k <= |s| && (k == |s| || s[k] == '=' || !IsBase64(s[k]))
    ensures Leading(s[k..]) == ""
  {
    EqualsIsNotBase64();
  }

  method Base64Decode(encoded: string) returns (ret: seq<byte>)
    ensures ret == Decode(encoded)
  {
    hide Place, Triple, IsBase64, DecodeGroups, Leading;
    ret := [];
    var i := 0;
    var chars4 := new char[4];
    var k := 0;
    assert encoded[0..] == encoded && chars4[..0] + Leading(encoded) == Leading(encoded);
    while k < |encoded| && encoded[k] != '=' && IsBase64(encoded[k])
      invariant 0 <= i < 4 && 0 <= k <= |encoded|
      invariant ret + DecodeGroups(chars4[..i] + Leading(encoded[k..])) == Decode(encoded)
    {
      ghost var left := chars4[..i] + Leading(encoded[k..]);
      LeadingStep(encoded, k);
      chars4[i] := encoded[k];
      i := i + 1;
      k := k + 1;
      assert chars4[..i] + Leading(encoded[k..]) == left;
      if i == 4 {
        DecodeStep(left);
        assert left[..4] == chars4[..];
        var bytes := Merge(chars4, 3);
        assert left[4..] == Leading(encoded[k..]) == chars4[..0] + Leading(encoded[k..]);
        ret := ret + bytes;
        i := 0;
      }
    }
    LeadingEnds(encoded, k);
    assert chars4[..i] + Leading(encoded[k..]) == chars4[..i];
    if i > 0 {
      var last := DecodeRest(chars4, i);
      ret := ret + last;
    } else {
      NothingToDecode();
    }
  }

  lemma NothingToDecode()
    ensures DecodeGroups("") == []
  {
  }

  lemma EqualsIsNotBase64()
    ensures !IsBase64('=')
  {
  }

  // ----- the round trip

  lemma SecondSplits(a: byte, b: byte)
    ensures Second(a, b) / 16 == a % 4 && Second(a, b) % 16 == b / 16
  {
  }

  lemma ThirdSplits(b: byte, c: byte)
    ensures Third(b, c) / 4 == b % 16 && Third(b, c) % 4 == c / 64
  {
  }

  lemma GroupRoundTrip(a: byte, b: byte, c: byte)
    ensures Byte0(First(a), Second(a, b)) == a
    ensures Byte1(Second(a, b), Third(b, c)) == b
    ensures Byte2(Third(b, c), Fourth(c)) == c
  {
    hide Second, Third;
    SecondSplits(a, b);
    ThirdSplits(b, c);
    assert a == a / 4 * 4 + a % 4;
    assert b == b / 16 * 16 + b % 16;
    assert c == c / 64 * 64 + c % 64;
  }

  /** The four places are the 24-bit number of the three bytes, six bits at a time. */
  lemma SixBitsAtATime(a: byte, b: byte, c: byte)
    ensures ((First(a) * 64 + Second(a, b)) * 64 + Third(b, c)) * 64 + Fourth(c) == (a * 256 + b) * 256 + c
    ensures First(a) < 64 && Second(a, b) < 64 && Third(b, c) < 64 && Fourth(c) < 64
  {
    assert a == a / 4 * 4 + a % 4 && b == b / 16 * 16 + b % 16 && c == c / 64 * 64 + c % 64;
  }

  lemma QuadDecodes(a: byte, b: byte, c: byte)
    ensures Triple(Quad(a, b, c)) == [a, b, c]
    ensures forall i :: 0 <= i < 4 ==> IsBase64(Quad(a, b, c)[i])
  {
    hide Base64Char, Place, IsBase64, Byte0, Byte1, Byte2;
    PlaceOf(First(a));
    PlaceOf(Second(a, b));
    PlaceOf(Third(b, c));
    PlaceOf(Fourth(c));
    GroupRoundTrip(a, b, c);
  }

  lemma {:induction false} LeadingIs(s: string, tail: string)
    requires (forall i :: 0 <= i < |s| ==> IsBase64(s[i])) && (tail == "" || tail[0] == '=')
    ensures Leading(s + tail) == s
    decreases |s|
  {
    hide IsBase64;
    EqualsIsNotBase64();
    if s == "" {
      assert s + tail == tail;
    } else {
      LeadingIs(s[1..], tail);
      assert (s + tail)[0] == s[0] && (s + tail)[1..] == s[1..] + tail;
    }
  }

  lemma {:induction false} LeadingConcat(s: string, t: string)
    requires forall i :: 0 <= i < |s| ==> IsBase64(s[i])
    ensures Leading(s + t) == s + Leading(t)
    decreases |s|
  {
    hide IsBase64;
    if s == "" {
      assert s + t == t;
    } else {
      LeadingConcat(s[1..], t);
      assert (s + t)[0] == s[0] && (s + t)[1..] == s[1..] + t;
    }
  }

  /** Decoding an encoding gives the bytes back, for any number of bytes. */
  lemma {:induction false} RoundTrip(b: seq<byte>)
    ensures Decode(Encode(b)) == b
    decreases |b|
  {
    hide Quad, IsBase64, Place, Byte0, Byte1, Byte2, Leading;
    if b == [] {
      assert Encode(b) == "" + "";
      LeadingIs("", "");
    } else if |b| == 1 {
      QuadDecodes(b[0], 0, 0);
      LeadingIs(Quad(b[0], 0, 0)[..2], "==");
    } else if |b| == 2 {
      QuadDecodes(b[0], b[1], 0);
      LeadingIs(Quad(b[0], b[1], 0)[..3], "=");
    } else {
      RoundTrip(b[3..]);
      QuadDecodes(b[0], b[1], b[2]);
      var q, rest := Quad(b[0], b[1], b[2]), Leading(Encode(b[3..]));
      LeadingConcat(q, Encode(b[3..]));
      assert (q + rest)[4..] == rest;
      assert b == [b[0], b[1], b[2]] + b[3..];
    }
  }

  /** Four characters for every three bytes begun. */
  lemma {:induction false} EncodedLength(b: seq<byte>)
    ensures |Encode(b)| == 4 * ((|b| + 2) / 3)
    decreases |b|
  {
    hide Quad;
    if |b| >= 3 {
      EncodedLength(b[3..]);
    }
  }

  /** Examples of RFC 4648, section 10: "f" and "fo" in ASCII. */
  lemma OneByteExample()
    ensures Encode([0x66]) == "Zg=="
  {
    assert Quad(0x66, 0, 0)[..2] == "Zg";
  }

  lemma TwoByteExample()
    ensures Encode([0x66, 0x6f]) == "Zm8="
  {
    assert Quad(0x66, 0x6f, 0)[..3] == "Zm8";
  }

  // ----- the other way round

  predicate InAlphabet(s: string) {
    forall i :: 0 <= i < |s| ==> IsBase64(s[i])
  }

  lemma PlaceBack(c: char)
    requires IsBase64(c)
    ensures Place(c) < 64 && Base64Char(Place(c)) == c
  {
    var i: nat := if 'A' <= c <= 'Z' then (c - 'A') as int
                  else if 'a' <= c <= 'z' then 26 + (c - 'a') as int
                  else if '0' <= c <= '9' then 52 + (c - '0') as int
                  else if c == '+' then 62 else 63;
    assert Base64Char(i) == c;
    hide Base64Char;
    FindIs(i, 0);
  }

  lemma PlacesBack(p: byte, q: byte, r: byte, s: byte)
    requires p < 64 && q < 64 && r < 64 && s < 64
    ensures First(Byte0(p, q)) == p && Second(Byte0(p, q), Byte1(q, r)) == q
    ensures Third(Byte1(q, r), Byte2(r, s)) == r && Fourth(Byte2(r, s)) == s
  {
    Byte0Parts(p, q);
    Byte1Parts(q, r);
    Byte2Parts(r, s);
    hide Byte0, Byte1, Byte2;
  }

  lemma Byte0Parts(p: byte, q: byte)
    requires p < 64 && q < 64
    ensures Byte0(p, q) / 4 == p && Byte0(p, q) % 4 == q / 16
  {
    assert Byte0(p, q) == p * 4 + q / 16;
  }

  lemma Byte1Parts(q: byte, r: byte)
    requires q < 64 && r < 64
    ensures Byte1(q, r) / 16 == q % 16 && Byte1(q, r) % 16 == r / 4
  {
    assert Byte1(q, r) == q % 16 * 16 + r / 4;
  }

  lemma Byte2Parts(r: byte, s: byte)
    requires r < 64 && s < 64
    ensures Byte2(r, s) / 64 == r % 4 && Byte2(r, s) % 64 == s
  {
    assert Byte2(r, s) == r % 4 * 64 + s;
  }

  lemma GroupBack(c: string)
    requires |c| == 4 && InAlphabet(c)
    ensures var t := Triple(c); Quad(t[0], t[1], t[2]) == c
  {
    hide Base64Char, Place, IsBase64, First, Second, Third, Fourth, Byte0, Byte1, Byte2;
    PlaceBack(c[0]);
    PlaceBack(c[1]);
    PlaceBack(c[2]);
    PlaceBack(c[3]);
    PlacesBack(Place(c[0]), Place(c[1]), Place(c[2]), Place(c[3]));
  }

  /** Every text of whole groups is an encoding: of what it decodes to. */
  lemma {:induction false} WholeGroupsBack(s: string)
    requires InAlphabet(s) && |s| % 4 == 0
    ensures Decode(s) == DecodeGroups(s) && Encode(Decode(s)) == s
    decreases |s|
  {
    hide Quad, IsBase64, Place, Byte0, Byte1, Byte2, Leading, Triple;
    assert s + "" == s;
    LeadingIs(s, "");
    if s != "" {
      var c, rest := s[..4], s[4..];
      GroupBack(c);
      WholeGroupsBack(rest);
      DecodeStep(s);
      var t := Triple(c);
      assert t[..3] == t && Decode(s) == t + Decode(rest);
      assert (t + Decode(rest))[3..] == Decode(rest);
    }
  }

  /** Whatever follows a character outside the alphabet, or that character itself, is not looked at. */
  lemma ForeignEnds(s: string, c: char, more: string)
    requires InAlphabet(s) && !IsBase64(c)
    ensures Decode(s + [c] + more) == Decode(s)
  {
    hide IsBase64, DecodeGroups;
    assert s + [c] + more == s + ([c] + more) && s + "" == s;
    LeadingConcat(s, [c] + more);
    LeadingConcat(s, "");
    assert Leading([c] + more) == "" && Leading("") == "";
  }

  /** A single character behind whole groups gives nothing. */
  lemma {:induction false} SingleIsDropped(s: string, c: char)
    requires InAlphabet(s) && |s| % 4 == 0 && IsBase64(c)
    ensures Decode(s + [c]) == Decode(s)
  {
    hide IsBase64, DecodeGroups;
    assert s + "" == s && s + [c] + "" == s + [c];
    LeadingIs(s, "");
    LeadingIs(s + [c], "");
    SingleAdded(s, c);
  }

  lemma {:induction false} SingleAdded(s: string, c: char)
    requires |s| % 4 == 0
    ensures DecodeGroups(s + [c]) == DecodeGroups(s)
    decreases |s|
  {
    hide Place, Byte0, Byte1, Byte2;
    if s == "" {
      assert s + [c] == [c];
    } else {
      SingleAdded(s[4..], c);
      assert (s + [c])[4..] == s[4..] + [c] && (s + [c])[..4] == s[..4];
      DecodeStep(s);
      DecodeStep(s + [c]);
    }
  }
}
