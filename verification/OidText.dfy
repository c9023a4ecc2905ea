/** Dotted decimal object identifiers as text: rendering a path of numbers, taking the text apart at
    the dots, and reading a number back from its decimal digits. */
module OidText {
  type Path = seq<nat>

  predicate IsDigit(c: char) {
    '0' <= c <= '9'
  }

  function DigitChar(d: nat): (c: char)
    requires d < 10
    ensures IsDigit(c) && c as int - '0' as int == d
  {
    ('0' as int + d) as char
  }

  /** Canonical decimal, without leading zeros. */
  function Digits(n: nat): (s: string)
    ensures s != [] && forall i :: 0 <= i < |s| ==> IsDigit(s[i])
  {
    if n < 10 then [DigitChar(n)] else Digits(n / 10) + [DigitChar(n % 10)]
  }

  /** The number a text starts with, as the C library reads it: digits up to the first other character. */
  function Number(acc: nat, s: string): nat
    decreases |s|
  {
    if s == [] || !IsDigit(s[0]) then acc
    else Number(10 * acc + (s[0] as int - '0' as int), s[1..])
  }

  function Atoi(s: string): nat {
    Number(0, s)
  }

  /** The path with a dot between its components. */
  function Join(p: Path): string {
    if p == [] then ""
    else if |p| == 1 then Digits(p[0])
    else Join(p[..|p| - 1]) + "." + Digits(p[|p| - 1])
  }

  // ----- decimal round trip

  /** Reading digits first continues with what follows them. */
  lemma {:induction false} DigitsThen(n: nat, rest: string)
    ensures Number(0, Digits(n) + rest) == Number(n, rest)
    decreases n
  {
    if n < 10 {
      assert ([DigitChar(n)] + rest)[1..] == rest;
    } else {
      var tail := [DigitChar(n % 10)] + rest;
      assert Digits(n) + rest == Digits(n / 10) + tail;
      DigitsThen(n / 10, tail);
      assert tail[1..] == rest;
      assert 10 * (n / 10) + n % 10 == n;
    }
  }

  lemma AtoiOfDigits(n: nat, rest: string)
    requires rest == [] || !IsDigit(rest[0])
    ensures Atoi(Digits(n) + rest) == n
  {
    DigitsThen(n, rest);
  }

  lemma DigitsInjective(m: nat, n: nat)
    requires Digits(m) == Digits(n)
    ensures m == n
  {
    AtoiOfDigits(m, []);
    AtoiOfDigits(n, []);
    assert Digits(m) + [] == Digits(n) + [];
  }

  // ----- splitting at the dots

  /** Position of the first dot, or the length. */
  function FindDot(s: string): (k: nat)
    ensures k <= |s| && (k < |s| ==> s[k] == '.') && forall i :: 0 <= i < k ==> s[i] != '.'
  {
    if s == [] then 0 else if s[0] == '.' then 0 else 1 + FindDot(s[1..])
  }

  function Split(s: string): seq<string>
    decreases |s|
  {
    var k := FindDot(s);
    if k == |s| then (if |s| > 0 then [s] else [])
    else if k + 1 == |s| then [s[..k], ""]
    else [s[..k]] + Split(s[k + 1..])
  }

  lemma SplitStep(rest: string)
    ensures var pos := FindDot(rest);
            Split(rest) ==
            if pos == |rest| then (if rest == "" then [] else [rest])
            else [rest[..pos]] + if pos + 1 == |rest| then [""] else Split(rest[pos + 1..])
  {
    hide FindDot;
  }

  method SplitAtDots(s: string) returns (out: seq<string>)
    ensures out == Split(s)
  {
    hide Split, FindDot;
    out := [];
    var rest := s;
    while true
      invariant out + Split(rest) == Split(s)
      decreases |rest|
    {
      SplitStep(rest);
      var pos := FindDot(rest);
      if pos == |rest| {
        break;
      }
      out := out + [rest[..pos]];
      var bytesLeft := |rest| - (pos + 1);
      if bytesLeft == 0 {
        out := out + [""];
        return;
      }
      rest := rest[pos + 1..];
    }
    if |rest| > 0 {
      out := out + [rest];
    }
  }

  /** The parts put together again with dots. */
  function JoinParts(parts: seq<string>): string {
    if parts == [] then "" else if |parts| == 1 then parts[0] else parts[0] + "." + JoinParts(parts[1..])
  }

  /** Nothing is lost by splitting. */
  lemma {:induction false} SplitLossless(s: string)
    ensures JoinParts(Split(s)) == s
    decreases |s|
  {
    var k := FindDot(s);
    if k == |s| {
    } else if k + 1 == |s| {
      assert Split(s)[1..] == [""];
      assert s == s[..k] + "." + "";
    } else {
      SplitLossless(s[k + 1..]);
      SplitNonEmpty(s[k + 1..]);
      assert Split(s)[1..] == Split(s[k + 1..]);
      assert s == s[..k] + "." + s[k + 1..];
    }
  }

  lemma SplitNonEmpty(s: string)
    requires s != ""
    ensures Split(s) != []
  {
  }

  function Parts(p: Path): seq<string> {
    if p == [] then [] else [Digits(p[0])] + Parts(p[1..])
  }

  lemma FindDotIs(s: string, k: nat)
    requires k <= |s| && (k < |s| ==> s[k] == '.') && forall i :: 0 <= i < k ==> s[i] != '.'
    ensures FindDot(s) == k
  {
  }

  /** Joining from the left is joining from the right. */
  lemma {:induction false} JoinHead(p: Path)
    requires |p| >= 2
    ensures Join(p) == Digits(p[0]) + "." + Join(p[1..])
    decreases |p|
  {
    var n := |p| - 1;
    if |p| == 2 {
      assert p[..1] == [p[0]] && p[1..] == [p[1]];
    } else {
      JoinHead(p[..n]);
      assert p[..n][1..] == p[1..][..n - 1];
      assert p[1..][n - 1] == p[n];
      assert Join(p) == Digits(p[0]) + "." + Join(p[1..][..n - 1]) + "." + Digits(p[n]);
    }
  }

  lemma {:induction false} SplitJoin(p: Path)
    requires p != []
    ensures Split(Join(p)) == Parts(p)
    decreases |p|
  {
    var d := Digits(p[0]);
    if |p| == 1 {
      FindDotIs(d, |d|);
      assert p[1..] == [];
    } else {
      JoinHead(p);
      SplitJoin(p[1..]);
      var s := Join(p);
      FindDotIs(s, |d|);
      assert s[..|d|] == d && s[|d| + 1..] == Join(p[1..]);
      JoinNonEmpty(p[1..]);
    }
  }

  lemma JoinNonEmpty(p: Path)
    requires p != []
    ensures Join(p) != ""
  {
  }

  lemma {:induction false} PartsInjective(p: Path, q: Path)
    requires Parts(p) == Parts(q)
    ensures p == q
    decreases |p|
  {
    if p != [] && q != [] {
      assert Parts(p)[0] == Parts(q)[0] && Parts(p)[1..] == Parts(q)[1..];
      assert Parts(p[1..]) == Parts(p)[1..] && Parts(q[1..]) == Parts(q)[1..];
      DigitsInjective(p[0], q[0]);
      PartsInjective(p[1..], q[1..]);
      assert p == [p[0]] + p[1..] && q == [q[0]] + q[1..];
    }
  }

  /** Different paths have different texts. */
  lemma JoinInjective(p: Path, q: Path)
    requires Join(p) == Join(q)
    ensures p == q
  {
    if p == [] || q == [] {
      if p != [] { JoinNonEmpty(p); }
      if q != [] { JoinNonEmpty(q); }
    } else {
      SplitJoin(p);
      SplitJoin(q);
      PartsInjective(p, q);
    }
  }
}
