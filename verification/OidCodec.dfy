/** Object identifiers on the wire: base-128 numerals, high group first (X.690 section 8.19). */
module OidCodec {
  import opened Bytes
  import opened OidText

  const MAX_COMPONENT: nat := 0x8000_0000            // what a signed 32-bit print shows unchanged
  const MAX_LONG: nat := 0x8000_0000_0000_0000       // one more than what atoll can read
  const WORD64: nat := 0x1_0000_0000_0000_0000

  // ----- encoder

  /** A component's groups; every group but the last carries the continuation bit. */
  function Base128(n: nat): (s: seq<byte>)
    ensures s != []
  {
    Groups(n / 128) + [n % 128]
  }

  function Groups(n: nat): seq<byte> {
    if n == 0 then [] else Groups(n / 128) + [128 + n % 128]
  }

  function Components(p: Path): seq<byte> {
    if p == [] then [] else Base128(p[0]) + Components(p[1..])
  }

  predicate IsIso(p: Path) {
    |p| >= 3 && p[0] == 1 && p[1] == 3
  }

  function OidBytes(p: Path): seq<byte> {
    if IsIso(p) then [43] + Components(p[2..]) else Components(p)
  }

  lemma {:induction false} GroupsSize(n: nat)
    ensures |Groups(n)| <= (if n == 0 then 0 else |Digits(n)|)
    decreases n
  {
    if n != 0 {
      GroupsSize(n / 128);
      if n / 128 != 0 {
        DigitsMonotone(n / 128, n / 10);
        assert Digits(n) == Digits(n / 10) + [DigitChar(n % 10)];
      }
    }
  }

  lemma {:induction false} DigitsMonotone(m: nat, n: nat)
    requires m <= n
    ensures |Digits(m)| <= |Digits(n)|
    decreases n
  {
    if m >= 10 {
      DigitsMonotone(m / 10, n / 10);
    }
  }

  /** A base-128 numeral is no longer than the decimal one. */
  lemma Base128Size(n: nat)
    ensures |Base128(n)| <= |Digits(n)|
  {
    if n < 10 {
      assert n / 128 == 0;
    } else {
      GroupsSize(n / 128);
      if n / 128 != 0 {
        DigitsMonotone(n / 128, n / 10);
      }
      assert Digits(n) == Digits(n / 10) + [DigitChar(n % 10)];
    }
  }

  lemma {:induction false} ComponentsSize(p: Path)
    ensures |Components(p)| <= |Join(p)|
    decreases |p|
  {
    if p != [] {
      Base128Size(p[0]);
      if |p| >= 2 {
        ComponentsSize(p[1..]);
        JoinHead(p);
      }
    }
  }

  /** The bytes written never outgrow the buffer, which is as long as the text. */
  lemma OidBytesSize(p: Path)
    ensures |OidBytes(p)| <= |Join(p)|
  {
    if IsIso(p) {
      ComponentsSize(p[2..]);
      JoinHead(p);
      JoinHead(p[1..]);
      assert p[1..][1..] == p[2..];
    } else {
      ComponentsSize(p);
    }
  }

  // ----- the encoding loops

  /** The groups as the loop collects them: lowest first, without continuation bits. */
  function Little(n: nat): (s: seq<byte>)
    ensures s != []
  {
    if n < 128 then [n] else [n % 128] + Little(n / 128)
  }

  /** What writing them out from the top adds. */
  function Emitted(s: seq<byte>): seq<byte>
    requires forall i :: 0 <= i < |s| ==> s[i] < 128
  {
    if s == [] then []
    else [s[|s| - 1] + (if |s| == 1 then 0 else 128)] + Emitted(s[..|s| - 1])
  }

  lemma {:induction false} LittleSmall(n: nat)
    ensures forall i :: 0 <= i < |Little(n)| ==> Little(n)[i] < 128
    decreases n
  {
    if n >= 128 {
      LittleSmall(n / 128);
    }
  }

  function Flagged(s: seq<byte>): seq<byte>
    requires forall i :: 0 <= i < |s| ==> s[i] < 128
  {
    if s == [] then [] else Flagged(s[1..]) + [128 + s[0]]
  }

  lemma {:induction false} FlaggedSnoc(s: seq<byte>, x: byte)
    requires x < 128 && forall i :: 0 <= i < |s| ==> s[i] < 128
    ensures Flagged(s + [x]) == [128 + x] + Flagged(s)
    decreases |s|
  {
    if s == [] {
      assert [x][1..] == [];
    } else {
      assert (s + [x])[1..] == s[1..] + [x];
      FlaggedSnoc(s[1..], x);
    }
  }

  lemma {:induction false} EmittedIsFlagged(x: byte, t: seq<byte>)
    requires x < 128 && forall i :: 0 <= i < |t| ==> t[i] < 128
    ensures Emitted([x] + t) == Flagged(t) + [x]
    decreases |t|
  {
    var s := [x] + t;
    if t == [] {
      assert s[..0] == [];
    } else {
      var n := |t| - 1;
      assert s[..|s| - 1] == [x] + t[..n];
      EmittedIsFlagged(x, t[..n]);
      FlaggedSnoc(t[..n], t[n]);
      assert t == t[..n] + [t[n]];
    }
  }

  lemma {:induction false} GroupsAreFlagged(n: nat)
    requires n > 0
    ensures (LittleSmall(n); Groups(n) == Flagged(Little(n)))
    decreases n
  {
    LittleSmall(n);
    if n < 128 {
      assert Groups(n / 128) == [] && Little(n)[1..] == [];
    } else {
      GroupsAreFlagged(n / 128);
      assert Little(n)[1..] == Little(n / 128);
    }
  }

  /** Collecting the groups and writing them out from the top gives the numeral. */
  lemma EmittedIsBase128(n: nat)
    ensures (LittleSmall(n); Emitted(Little(n)) == Base128(n))
  {
    LittleSmall(n);
    if n < 128 {
      assert Little(n)[..0] == [] && Groups(n / 128) == [];
    } else {
      LittleSmall(n / 128);
      GroupsAreFlagged(n / 128);
      EmittedIsFlagged(n % 128, Little(n / 128));
    }
  }

  lemma {:induction false} LittleSize(n: nat, k: nat)
    requires 1 <= k && n < Pow128(k)
    ensures |Little(n)| <= k
    decreases k
  {
    if n >= 128 {
      LittleSize(n / 128, k - 1);
    }
  }

  function Pow128(k: nat): nat {
    if k == 0 then 1 else 128 * Pow128(k - 1)
  }

  /** Fills the scratch buffer; ten bytes hold the groups of any 64-bit number. */
  method CollectGroups(n: nat, temp: array<byte>) returns (count: nat)
    requires n < WORD64 && temp.Length == 10
    modifies temp
    ensures count <= temp.Length && temp[..count] == Little(n)
  {
    LittleLimit(n);
    count := 0;
    if n == 0 {
      temp[0] := 0;
      count := 1;
    } else {
      var v := n;
      while v != 0
        invariant count + (if v == 0 then 0 else |Little(v)|) <= 10
        invariant Little(n) == temp[..count] + (if v == 0 then [] else Little(v))
        decreases v
      {
        temp[count] := v % 128;
        count := count + 1;
        v := v / 128;
      }
    }
  }

  lemma LittleLimit(n: nat)
    requires n < WORD64
    ensures |Little(n)| <= 10
  {
    assert Pow128(3) == 0x20_0000;
    assert Pow128(5) == 128 * (128 * Pow128(3)) == 0x8_0000_0000;
    assert Pow128(7) == 128 * (128 * Pow128(5)) == 0x2_0000_0000_0000;
    assert Pow128(9) == 128 * (128 * Pow128(7)) == MAX_LONG;
    assert Pow128(10) == 128 * Pow128(9) > WORD64;
    LittleSize(n, 10);
  }

  /** Writes the collected groups out from the top, continuation bits included. */
  method EmitGroups(temp: array<byte>, count: nat, v: array<byte>, p: nat) returns (q: nat)
    requires temp != v && count <= temp.Length && p + count <= v.Length
    requires forall i :: 0 <= i < count ==> temp[i] < 128
    modifies v
    ensures q == p + count && v[..q] == old(v[..p]) + Emitted(temp[..count])
  {
    q := p;
    var o := count;
    while o != 0
      invariant 0 <= o <= count && q + o == p + count && q <= v.Length
      invariant v[..q] + Emitted(temp[..o]) == old(v[..p]) + Emitted(temp[..count])
      decreases o
    {
      o := o - 1;
      assert temp[..o + 1][..o] == temp[..o];
      v[q] := temp[o] + (if o == 0 then 0 else 128);
      q := q + 1;
    }
  }

  // ----- the whole identifier

  lemma IsoText(p: Path)
    ensures "1.3." <= Join(p) <==> IsIso(p)
    ensures IsIso(p) ==> Join(p)[4..] == Join(p[2..])
  {
    hide Digits;
    if |p| >= 2 {
      JoinHead(p);
      var a, b := Digits(p[0]), Join(p[1..]);
      OneDigit(p[0]);
      OneDigit(p[1]);
      if |p| >= 3 {
        JoinHead(p[1..]);
        assert p[1..][1..] == p[2..];
        IsoHead(a, Digits(p[1]), Join(p[2..]));
      } else {
        assert Join(p[1..]) == Digits(p[1]);
        NoThirdPart(a, Digits(p[1]));
      }
    } else if |p| == 1 {
      NoDotInside(Digits(p[0]));
    }
  }

  lemma OneDigit(n: nat)
    ensures Digits(n) == "1" <==> n == 1
    ensures Digits(n) == "3" <==> n == 3
  {
    assert Digits(1) == "1" && Digits(3) == "3";
    if Digits(n) == "1" {
      DigitsInjective(n, 1);
    }
    if Digits(n) == "3" {
      DigitsInjective(n, 3);
    }
  }

  predicate AllDigits(s: string) {
    s != [] && forall i :: 0 <= i < |s| ==> IsDigit(s[i])
  }

  lemma IsoHead(a: string, b: string, c: string)
    requires AllDigits(a) && AllDigits(b)
    ensures var s := a + "." + (b + "." + c);
            && ("1.3." <= s <==> a == "1" && b == "3")
            && ("1.3." <= s ==> s[4..] == c)
  {
    var s := a + "." + (b + "." + c);
    assert s[|a|] == '.' && s[|a| + 1 + |b|] == '.';
    assert forall i :: 0 <= i < |a| ==> s[i] == a[i] && s[i] != '.';
    assert forall i :: 0 <= i < |b| ==> s[|a| + 1 + i] == b[i] && b[i] != '.';
    if "1.3." <= s {
      assert s[0] == '1' && s[1] == '.' && s[2] == '3' && s[3] == '.';
      assert |a| == 1;
      assert |b| == 1;
    }
  }

  lemma NoThirdPart(a: string, b: string)
    requires AllDigits(a) && AllDigits(b)
    ensures !("1.3." <= a + "." + b)
  {
    var s := a + "." + b;
    assert forall i :: 0 <= i < |a| ==> s[i] == a[i] && s[i] != '.';
    assert forall i :: 0 <= i < |b| ==> s[|a| + 1 + i] == b[i] && b[i] != '.';
    assert s[|a|] == '.' && |s| == |a| + 1 + |b|;
    assert |s| > 3 && s[1] == '.' ==> |a| == 1;
    assert |a| == 1 && |s| > 3 ==> s[3] == b[1];
  }

  lemma NoDotInside(a: string)
    requires AllDigits(a)
    ensures !("1.3." <= a)
  {
    assert "1.3."[1] == '.';
  }

  lemma JoinOne(p: Path)
    requires |p| == 1
    ensures Join(p) == Digits(p[0])
  {
  }

  /** The text after the first dot is the rest of the path. */
  lemma NextWork(p: Path)
    requires p != []
    ensures Atoi(Join(p)) == p[0] && Join(p) != ""
    ensures FindDot(Join(p)) == |Digits(p[0])|
    ensures |p| == 1 <==> FindDot(Join(p)) == |Join(p)|
    ensures |p| > 1 ==> Join(p)[FindDot(Join(p)) + 1..] == Join(p[1..])
  {
    hide Digits, Number, Join, FindDot;
    var d := Digits(p[0]);
    JoinNothing();
    if |p| == 1 {
      JoinOne(p);
      FindDotIs(d, |d|);
      AtoiOfDigits(p[0], []);
      assert d + [] == d;
    } else {
      JoinHead(p);
      FindDotIs(Join(p), |d|);
      AtoiOfDigits(p[0], "." + Join(p[1..]));
      assert Join(p) == d + ("." + Join(p[1..]));
    }
  }

  lemma NextComponent(left: Path)
    requires left != []
    ensures Components(left) == Base128(left[0]) + Components(left[1..])
  {
    hide Base128;
  }

  // ----- the encoder, for any text

  predicate IsSpace(c: char) {
    c == ' ' || '\t' <= c <= '\r'
  }

  function SkipSpaces(s: string): string {
    if s != "" && IsSpace(s[0]) then SkipSpaces(s[1..]) else s
  }

  function AtMost(n: nat, limit: nat): nat {
    if n > limit then limit else n
  }

  /** The number a text starts with, as the C library reads it into a signed 64-bit word, which is then
      kept unsigned. */
  function Atoll(s: string): (n: nat)
    ensures n < WORD64
  {
    var t := SkipSpaces(s);
    if t != "" && t[0] == '-' then (WORD64 - AtMost(Number(0, t[1..]), MAX_LONG)) % WORD64
    else AtMost(Number(0, if t != "" && t[0] == '+' then t[1..] else t), MAX_LONG - 1)
  }

  /** The text piece by piece between its dots; a dot at its end adds nothing. */
  function PieceBytes(work: string): seq<byte>
    decreases |work|
  {
    if work == "" then []
    else
      var dot := FindDot(work);
      Base128(Atoll(work)) + if dot == |work| then [] else PieceBytes(work[dot + 1..])
  }

  function TextBytes(oid: string): seq<byte> {
    if "1.3." <= oid then [43] + PieceBytes(oid[4..]) else PieceBytes(oid)
  }

  /** The next piece is written: it fits if the whole does. */
  lemma PieceWritten(done: seq<byte>, work: string)
    requires work != ""
    ensures (LittleSmall(Atoll(work));
             var dot := FindDot(work);
             done + PieceBytes(work) == done + Emitted(Little(Atoll(work)))
                                        + if dot == |work| then [] else PieceBytes(work[dot + 1..]))
    ensures |done| + |Little(Atoll(work))| <= |done + PieceBytes(work)|
  {
    hide Little, Emitted, Base128, Atoll;
    var n := Atoll(work);
    LittleSmall(n);
    EmittedIsBase128(n);
    EmittedSize(Little(n));
    var rest := if FindDot(work) == |work| then [] else PieceBytes(work[FindDot(work) + 1..]);
    assert done + (Base128(n) + rest) == done + Base128(n) + rest;
  }

  /** The identifier's constructor: the text is consumed piece by piece, the bytes go into a buffer as
      long as the text, which has to be enough. */
  method EncodeOid(oid: string) returns (v: array<byte>, len: nat)
    requires |TextBytes(oid)| <= |oid|
    ensures fresh(v) && v.Length == |oid| && len <= v.Length && v[..len] == TextBytes(oid)
  {
    hide *;
    TextBegins(oid);
    v := new byte[|oid|];
    var temp := new byte[10];
    var work := oid;
    len := 0;
    if "1.3." <= work {
      v[0] := 43;
      len := 1;
      work := work[4..];
    }
    NoPieces();
    while work != ""
      invariant len <= v.Length && v[..len] + PieceBytes(work) == TextBytes(oid)
      decreases |work|
    {
      var n := Atoll(work);
      LittleSmall(n);
      PieceWritten(v[..len], work);
      var count := CollectGroups(n, temp);
      len := EmitGroups(temp, count, v, len);
      var dot := FindDot(work);
      if dot == |work| {
        break;
      }
      work := work[dot + 1..];
    }
  }

  lemma TextBegins(oid: string)
    ensures TextBytes(oid) == if "1.3." <= oid then [43] + PieceBytes(oid[4..]) else [] + PieceBytes(oid)
  {
  }

  lemma NoPieces()
    ensures forall done: seq<byte> :: done + PieceBytes("") == done
  {
  }

  // ----- what it makes of a path's text, and of texts of digits and dots

  lemma AtollOfDigits(p: Path)
    requires p != []
    ensures Atoll(Join(p)) == AtMost(p[0], MAX_LONG - 1)
  {
    hide Digits, Number, Join;
    NextWork(p);
    JoinStarts(p);
  }

  lemma JoinStarts(p: Path)
    requires p != []
    ensures Join(p) != "" && IsDigit(Join(p)[0])
  {
    hide Digits;
    if |p| > 1 { JoinHead(p); }
  }

  lemma {:induction false} PiecesOfPath(p: Path)
    requires forall i :: 0 <= i < |p| ==> p[i] < MAX_LONG
    ensures PieceBytes(Join(p)) == Components(p)
    decreases |p|
  {
    hide Digits, Join, Base128, Atoll, FindDot;
    JoinNothing();
    if p != [] {
      NextWork(p);
      AtollOfDigits(p);
      if |p| > 1 {
        PiecesOfPath(p[1..]);
      }
    }
  }

  /** For canonical names with components atoll can read, these are the identifier's bytes. */
  lemma TextBytesOfPath(p: Path)
    requires forall i :: 0 <= i < |p| ==> p[i] < MAX_LONG
    ensures TextBytes(Join(p)) == OidBytes(p) && |TextBytes(Join(p))| <= |Join(p)|
  {
    hide Join, PieceBytes, Components;
    IsoText(p);
    OidBytesSize(p);
    if IsIso(p) {
      PiecesOfPath(p[2..]);
    } else {
      PiecesOfPath(p);
    }
  }

  predicate DigitsAndDots(s: string) {
    forall i :: 0 <= i < |s| ==> IsDigit(s[i]) || s[i] == '.'
  }

  /** Reading a digit makes a number at most one digit longer. */
  lemma {:induction false} NumberLength(acc: nat, s: string, k: nat)
    requires k <= |s| && (forall i :: 0 <= i < k ==> IsDigit(s[i])) && (k < |s| ==> !IsDigit(s[k]))
    ensures |Digits(Number(acc, s))| <= |Digits(acc)| + k
    ensures acc == 0 && k > 0 ==> |Digits(Number(acc, s))| <= k
    decreases k
  {
    if k > 0 {
      var d := s[0] as int - '0' as int;
      NumberLength(10 * acc + d, s[1..], k - 1);
      NextDigits(acc, d);
    }
  }

  lemma NextDigits(acc: nat, d: nat)
    requires d < 10
    ensures |Digits(10 * acc + d)| == if acc == 0 then 1 else |Digits(acc)| + 1
  {
    assert (10 * acc + d) / 10 == acc;
  }

  lemma PieceFits(work: string)
    requires work != "" && DigitsAndDots(work)
    ensures |Base128(Atoll(work))| <= if FindDot(work) == 0 then 1 else FindDot(work)
  {
    hide Base128, Digits, Number;
    var k := FindDot(work);
    assert forall i :: 0 <= i < k ==> IsDigit(work[i]);
    assert SkipSpaces(work) == work && work[0] != '-' && work[0] != '+';
    var n := Number(0, work);
    Base128Size(Atoll(work));
    DigitsMonotone(Atoll(work), n);
    NumberLength(0, work, k);
    ZeroDigits();
  }

  lemma ZeroDigits()
    ensures |Digits(0)| == 1
  {
  }

  lemma RestDotted(work: string, k: nat)
    requires k <= |work| && DigitsAndDots(work)
    ensures DigitsAndDots(work[k..])
  {
  }

  /** The buffer is large enough for every text of digits and dots, canonical or not. */
  lemma {:induction false} DottedFits(work: string)
    requires DigitsAndDots(work)
    ensures |PieceBytes(work)| <= |work|
    decreases |work|
  {
    hide Base128, Atoll, DigitsAndDots;
    if work != "" {
      PieceFits(work);
      var k := FindDot(work);
      if k < |work| {
        RestDotted(work, k + 1);
        DottedFits(work[k + 1..]);
      }
    }
  }

  lemma JoinNothing()
    ensures Join([]) == "" && forall p :: Join(p) == "" ==> p == []
  {
    forall p | Join(p) == "" ensures p == [] {
      if p != [] {
        JoinNonEmpty(p);
      }
    }
  }

  lemma {:induction false} EmittedSize(s: seq<byte>)
    requires forall i :: 0 <= i < |s| ==> s[i] < 128
    ensures |Emitted(s)| == |s|
    decreases |s|
  {
    if s != [] {
      EmittedSize(s[..|s| - 1]);
    }
  }

  // ----- decoder

  const WRAP: nat := 0x1_0000_0000

  /** A 32-bit word printed as a signed number. */
  function PrintSigned(v: nat): string
    requires v < WRAP
  {
    if v < MAX_COMPONENT then Digits(v) else "-" + Digits(WRAP - v)
  }

  datatype Decoded = Decoded(ok: bool, text: string)

  /** The decoding loop from some byte on: v holds the groups collected so far, in 32 bits. */
  function DecodeOid(b: seq<byte>, first: bool, v: nat, text: string): Decoded
    requires v < WRAP
    decreases |b|
  {
    if b == [] then Decoded(v == 0, text)
    else if b[0] < 128 then
      var w := (128 * v + b[0]) % WRAP;
      DecodeOid(b[1..], false, 0, if first && w == 43 then text + "1.3" else text + "." + PrintSigned(w))
    else DecodeOid(b[1..], false, (128 * v + (b[0] - 128)) % WRAP, text)
  }

  method GetOid(p: seq<byte>) returns (ok: bool, oid: string)
    ensures Decoded(ok, oid) == DecodeOid(p, true, 0, "")
  {
    hide PrintSigned;
    oid := "";
    var v := 0;
    for i := 0 to |p|
      invariant 0 <= v < WRAP && DecodeOid(p[i..], i == 0, v, oid) == DecodeOid(p, true, 0, "")
    {
      assert p[i..][0] == p[i] && p[i..][1..] == p[i + 1..];
      if p[i] < 128 {
        v := (128 * v + p[i]) % WRAP;
        if i == 0 && v == 43 {
          oid := oid + "1.3";
        } else {
          oid := oid + "." + PrintSigned(v);
        }
        v := 0;
      } else {
        v := (128 * v + (p[i] - 128)) % WRAP;
      }
    }
    ok := v == 0;
  }

  predicate DecodedChars(s: string) {
    forall i :: 0 <= i < |s| ==> IsDigit(s[i]) || s[i] == '.' || s[i] == '-'
  }

  lemma {:induction false} DecodedText(b: seq<byte>, first: bool, v: nat, text: string)
    requires v < WRAP && DecodedChars(text)
    ensures DecodedChars(DecodeOid(b, first, v, text).text)
    decreases |b|
  {
    hide PrintSigned, Digits;
    if b != [] {
      if b[0] < 128 {
        var w := (128 * v + b[0]) % WRAP;
        SignedChars(w);
        DecodedText(b[1..], false, 0, if first && w == 43 then text + "1.3" else text + "." + PrintSigned(w));
      } else {
        DecodedText(b[1..], false, (128 * v + (b[0] - 128)) % WRAP, text);
      }
    }
  }

  lemma SignedChars(w: nat)
    requires w < WRAP
    ensures DecodedChars(PrintSigned(w))
  {
    hide Digits;
  }

  /** Every name the decoder can yield fits the encoder's buffer, unless it has a negative component. */
  lemma DecodedFits(b: seq<byte>)
    ensures var oid := DecodeOid(b, true, 0, "").text;
            (forall i :: 0 <= i < |oid| ==> oid[i] != '-') ==> |TextBytes(oid)| <= |oid|
  {
    hide PieceBytes;
    DecodedText(b, true, 0, "");
    var oid := DecodeOid(b, true, 0, "").text;
    if forall i :: 0 <= i < |oid| ==> oid[i] != '-' {
      DottedFits(oid);
      if "1.3." <= oid {
        DottedFits(oid[4..]);
      }
    }
  }

  // ----- round trip

  lemma WrapStep(v: nat, n: nat)
    requires v == n / 128 % WRAP
    ensures (128 * v + n % 128) % WRAP == n % WRAP
  {
    var m := n / 128;
    assert m == WRAP * (m / WRAP) + v;
    assert n == WRAP * (128 * (m / WRAP)) + (128 * v + n % 128);
    ModAddMultiple(128 * v + n % 128, 128 * (m / WRAP));
  }

  lemma {:induction false} ModAddMultiple(a: nat, k: nat)
    ensures (WRAP * k + a) % WRAP == a % WRAP
    decreases k
  {
    if k > 0 {
      ModAddMultiple(a, k - 1);
      assert WRAP * k + a == (WRAP * (k - 1) + a) + WRAP;
    }
  }

  lemma {:induction false} GroupsDecoded(m: nat, rest: seq<byte>, first: bool, text: string)
    ensures DecodeOid(Groups(m) + rest, first, 0, text) == DecodeOid(rest, first && m == 0, m % WRAP, text)
    decreases m
  {
    if m == 0 {
      assert Groups(m) + rest == rest;
    } else {
      var tail := [128 + m % 128] + rest;
      assert Groups(m) + rest == Groups(m / 128) + tail;
      GroupsDecoded(m / 128, tail, first, text);
      assert tail[1..] == rest;
      WrapStep(m / 128 % WRAP, m);
    }
  }

  /** One component, wherever it is not the leading 43, comes out as its low 32 bits, printed signed. */
  lemma ComponentDecoded(n: nat, rest: seq<byte>, first: bool, text: string)
    requires !(first && n == 43)
    ensures DecodeOid(Base128(n) + rest, first, 0, text) == DecodeOid(rest, false, 0, text + "." + PrintSigned(n % WRAP))
  {
    hide Groups, PrintSigned;
    var tail := [n % 128] + rest;
    assert Base128(n) + rest == Groups(n / 128) + tail;
    GroupsDecoded(n / 128, tail, first, text);
    assert tail[1..] == rest;
    WrapStep(n / 128 % WRAP, n);
    if first && n / 128 == 0 {
      assert n == n % 128;
    }
  }

  function Printed(p: Path): string {
    if p == [] then "" else "." + PrintSigned(p[0] % WRAP) + Printed(p[1..])
  }

  lemma {:induction false} ComponentsDecoded(p: Path, text: string)
    ensures DecodeOid(Components(p), false, 0, text) == Decoded(true, text + Printed(p))
    decreases |p|
  {
    hide Base128, PrintSigned, DecodeOid, Components, Printed;
    PrintedStep(p, text);
    if p == [] {
      NothingDecoded(text);
    } else {
      NextComponent(p);
      ComponentDecoded(p[0], Components(p[1..]), false, text);
      ComponentsDecoded(p[1..], text + "." + PrintSigned(p[0] % WRAP));
    }
  }

  lemma PrintedStep(p: Path, text: string)
    ensures p == [] ==> text + Printed(p) == text && Components(p) == []
    ensures p != [] ==> text + Printed(p) == text + "." + PrintSigned(p[0] % WRAP) + Printed(p[1..])
  {
    hide PrintSigned;
  }

  lemma NothingDecoded(text: string)
    ensures DecodeOid([], false, 0, text) == Decoded(true, text)
  {
  }

  predicate Fits(p: Path) {
    forall i :: 0 <= i < |p| ==> p[i] < MAX_COMPONENT
  }

  /** The components' texts with a dot in front of each. */
  function Dotted(p: Path): string {
    if p == [] then "" else "." + Digits(p[0]) + Dotted(p[1..])
  }

  lemma {:induction false} JoinIsDotted(p: Path)
    requires p != []
    ensures Join(p) == Digits(p[0]) + Dotted(p[1..])
    decreases |p|
  {
    hide Digits, Join;
    if |p| == 1 {
      JoinOne(p);
      assert Digits(p[0]) + "" == Digits(p[0]);
    } else {
      JoinHead(p);
      JoinIsDotted(p[1..]);
      assert Dotted(p[1..]) == "." + Digits(p[1]) + Dotted(p[1..][1..]);
    }
  }

  /** What is printed is the dotted text exactly when every component fits a signed word. */
  lemma {:induction false} PrintedIsDotted(p: Path)
    ensures Printed(p) == Dotted(p) <==> Fits(p)
    decreases |p|
  {
    if p != [] {
      PrintedIsDotted(p[1..]);
      FitsCons(p);
      PrintedNumber(p[0]);
      FirstNumber(PrintSigned(p[0] % WRAP), Digits(p[0]), Printed(p[1..]), Dotted(p[1..]));
    }
  }

  lemma FitsCons(p: Path)
    requires p != []
    ensures Fits(p) <==> p[0] < MAX_COMPONENT && Fits(p[1..])
  {
    assert forall i :: 1 <= i < |p| ==> p[i] == p[1..][i - 1];
    assert Fits(p) ==> forall i :: 0 <= i < |p[1..]| ==> p[1..][i] == p[i + 1] < MAX_COMPONENT;
  }

  lemma PrintedNumber(n: nat)
    ensures PrintSigned(n % WRAP) == Digits(n) <==> n < MAX_COMPONENT
    ensures forall i :: 0 <= i < |PrintSigned(n % WRAP)| ==> PrintSigned(n % WRAP)[i] != '.'
  {
    hide Digits;
    var w := n % WRAP;
    if w < MAX_COMPONENT {
      if Digits(w) == Digits(n) {
        DigitsInjective(w, n);
      }
    } else {
      assert PrintSigned(w)[0] == '-' && IsDigit(Digits(n)[0]);
    }
  }

  /** Texts that go on with nothing or a dot agree exactly when their dot-free heads and their rests agree. */
  lemma FirstNumber(a: string, b: string, s: string, t: string)
    requires (forall i :: 0 <= i < |a| ==> a[i] != '.') && (forall i :: 0 <= i < |b| ==> b[i] != '.')
    requires (s != "" ==> s[0] == '.') && (t != "" ==> t[0] == '.')
    ensures "." + a + s == "." + b + t <==> a == b && s == t
  {
    var x, y := "." + a + s, "." + b + t;
    assert x[1..] == a + s && y[1..] == b + t;
    assert s != "" ==> (a + s)[|a|] == '.';
    assert t != "" ==> (b + t)[|b|] == '.';
    assert forall i :: 0 <= i < |a| ==> (a + s)[i] == a[i];
    assert forall i :: 0 <= i < |b| ==> (b + t)[i] == b[i];
    if x == y {
      assert a + s == b + t;
      assert |a| == |b|;
      assert a == (a + s)[..|a|] == b;
      assert s == (a + s)[|a|..] == t;
    }
  }

  lemma {:induction false} DecodeExtends(b: seq<byte>, first: bool, v: nat, text: string)
    requires v < WRAP
    ensures text <= DecodeOid(b, first, v, text).text
    decreases |b|
  {
    if b != [] {
      if b[0] < 128 {
        var w := (128 * v + b[0]) % WRAP;
        var t := if first && w == 43 then text + "1.3" else text + "." + PrintSigned(w);
        DecodeExtends(b[1..], false, 0, t);
      } else {
        DecodeExtends(b[1..], false, (128 * v + (b[0] - 128)) % WRAP, text);
      }
    }
  }

  /** Decoding what was encoded gives the text back exactly for the identifiers below 1.3 whose
      components fit a signed 32-bit number. */
  lemma OidRoundTrip(p: Path)
    requires p != []
    ensures DecodeOid(OidBytes(p), true, 0, "") == Decoded(true, Join(p)) <==> IsIso(p) && Fits(p)
  {
    if IsIso(p) {
      IsoDecoded(p);
    } else {
      OtherDecoded(p);
    }
  }

  lemma LeadingFortyThree(rest: seq<byte>)
    ensures DecodeOid([43] + rest, true, 0, "") == DecodeOid(rest, false, 0, "1.3")
  {
    assert ([43] + rest)[1..] == rest && "" + "1.3" == "1.3";
  }

  lemma IsoDecoded(p: Path)
    requires IsIso(p)
    ensures DecodeOid(OidBytes(p), true, 0, "") == Decoded(true, Join(p)) <==> Fits(p)
  {
    hide Digits, Join, DecodeOid, Components;
    var cs := p[2..];
    LeadingFortyThree(Components(cs));
    ComponentsDecoded(cs, "1.3");
    PrintedIsDotted(cs);
    JoinHead(p);
    JoinIsDotted(p[1..]);
    OneDigit(1);
    OneDigit(3);
    assert p[1..][1..] == cs;
    assert Join(p) == "1.3" + Dotted(cs);
    assert ("1.3" + Printed(cs))[3..] == Printed(cs) && ("1.3" + Dotted(cs))[3..] == Dotted(cs);
    FitsCons(p);
    FitsCons(p[1..]);
  }

  lemma OtherDecoded(p: Path)
    requires p != [] && !IsIso(p)
    ensures DecodeOid(OidBytes(p), true, 0, "").text != Join(p)
  {
    hide Base128;
    var b := OidBytes(p);
    JoinIsDotted(p);
    assert IsDigit(Join(p)[0]) && Join(p)[0] == Digits(p[0])[0];
    if p[0] == 43 {
      FortyThree();
      LeadingFortyThree(Components(p[1..]));
      DecodeExtends(Components(p[1..]), false, 0, "1.3");
      assert DecodeOid(b, true, 0, "").text[0] == '1';
    } else {
      ComponentDecoded(p[0], Components(p[1..]), true, "");
      var t := "" + "." + PrintSigned(p[0] % WRAP);
      DecodeExtends(Components(p[1..]), false, 0, t);
      assert t[0] == '.';
    }
  }

  lemma FortyThree()
    ensures Base128(43) == [43] && Digits(43) == "43"
  {
    assert Groups(43 / 128) == [];
    assert Digits(43 / 10) == "4";
  }

  // ----- against the standard

  /** X.690 section 8.19.2: the numbers in a row of bytes, seven bits a byte, each ending with a byte whose
      top bit is clear. */
  function Subidentifiers(acc: nat, b: seq<byte>): seq<nat>
    decreases |b|
  {
    if b == [] then []
    else if b[0] >= 128 then Subidentifiers(128 * acc + (b[0] - 128), b[1..])
    else [128 * acc + b[0]] + Subidentifiers(0, b[1..])
  }

  lemma {:induction false} GroupsRead(n: nat, rest: seq<byte>)
    ensures Subidentifiers(0, Groups(n) + rest) == Subidentifiers(n, rest)
    decreases n
  {
    if n == 0 {
      assert Groups(n) + rest == rest;
    } else {
      var last := [128 + n % 128] + rest;
      assert Groups(n) + rest == Groups(n / 128) + last;
      GroupsRead(n / 128, last);
      assert last[1..] == rest;
    }
  }

  lemma {:induction false} ComponentsRead(p: Path)
    ensures Subidentifiers(0, Components(p)) == p
    decreases |p|
  {
    if p != [] {
      var rest := [p[0] % 128] + Components(p[1..]);
      assert Components(p) == Groups(p[0] / 128) + rest;
      GroupsRead(p[0] / 128, rest);
      assert rest[1..] == Components(p[1..]);
      ComponentsRead(p[1..]);
    }
  }

  /** X.690 section 8.19.4 puts the first two components X and Y into one number, 40 X + Y; the encoder does
      so exactly for identifiers below 1.3, and writes all others component by component. */
  lemma StandardIdentifierExactly(p: Path)
    requires |p| >= 2
    ensures Subidentifiers(0, OidBytes(p)) == [40 * p[0] + p[1]] + p[2..] <==> IsIso(p)
    ensures !IsIso(p) ==> Subidentifiers(0, OidBytes(p)) == p
  {
    if IsIso(p) {
      ComponentsRead(p[2..]);
      assert OidBytes(p)[1..] == Components(p[2..]);
    } else {
      ComponentsRead(p);
    }
  }
}
