/** A right-shifting CRC register fed one message bit at a time: the reference both table-driven
    checksums are measured against.  The register is 16 or 32 bits wide and held in a 32-bit word;
    `top` is its highest bit.  The laws of exclusive or are kept behind function names and the
    proofs hide the definitions they do not need, so that the solver reasons by equality. */
module ShiftRegister {
  type word = bv32

  function Xor(a: word, b: word): word {
    a ^ b
  }

  function Half(c: word): word {
    c >> 1
  }

  function Double(c: word): word {
    c << 1
  }

  function Feedback(poly: word, c: word): word {
    if c & 1 == 1 then poly else 0
  }

  /** One shift: a bit falling out at the low end feeds the polynomial back in. */
  function Shift(poly: word, c: word): word {
    Xor(Half(c), Feedback(poly, c))
  }

  function ShiftN(poly: word, c: word, n: nat): word
    decreases n
  {
    if n == 0 then c else ShiftN(poly, Shift(poly, c), n - 1)
  }

  function BitWord(bit: bool): word {
    if bit then 1 else 0
  }

  function FeedBit(poly: word, c: word, bit: bool): word {
    Shift(poly, Xor(c, BitWord(bit)))
  }

  /** The bit-serial register. */
  function Feed(poly: word, c: word, bits: seq<bool>): word
    decreases |bits|
  {
    if bits == [] then c else Feed(poly, FeedBit(poly, c, bits[0]), bits[1..])
  }

  predicate BitAt(b: bv8, mask: bv8) {
    b & mask != 0
  }

  /** A byte is sent low bit first. */
  function ByteBits(b: bv8): (bits: seq<bool>)
    ensures |bits| == 8
  {
    [BitAt(b, 1), BitAt(b, 2), BitAt(b, 4), BitAt(b, 8), BitAt(b, 16), BitAt(b, 32), BitAt(b, 64), BitAt(b, 128)]
  }

  function Bits(bytes: seq<bv8>): (bits: seq<bool>)
    ensures |bits| == 8 * |bytes|
  {
    if bytes == [] then [] else ByteBits(bytes[0]) + Bits(bytes[1..])
  }

  function FeedBytes(poly: word, c: word, bytes: seq<bv8>): word {
    Feed(poly, c, Bits(bytes))
  }

  // ----- the register's width

  /** The widths in use; the feedback term has the register's highest bit set. */
  ghost predicate IsRegister(poly: word, top: word) {
    (top == 0x8000 || top == 0x8000_0000) && Fits(poly, top) && poly & top != 0
  }

  ghost function Width(top: word): nat {
    if top == 0x8000 then 16 else 32
  }

  predicate Fits(c: word, top: word) {
    if top == 0x8000 then c & 0xffff == c else true
  }

  // ----- laws of exclusive or

  lemma XorComm(a: word, b: word)
    ensures Xor(a, b) == Xor(b, a)
  {
  }

  lemma XorAssoc(a: word, b: word, c: word)
    ensures Xor(Xor(a, b), c) == Xor(a, Xor(b, c))
  {
  }

  lemma XorSelf(a: word)
    ensures Xor(a, a) == 0
    ensures Xor(a, 0) == a && Xor(0, a) == a
  {
  }

  lemma XorExchange(a: word, b: word, c: word, d: word)
    ensures Xor(Xor(a, b), Xor(c, d)) == Xor(Xor(a, c), Xor(b, d))
  {
    hide *;
    calc {
      Xor(Xor(a, b), Xor(c, d));
      { XorAssoc(a, b, Xor(c, d)); XorAssoc(b, c, d); }
      Xor(a, Xor(Xor(b, c), d));
      { XorComm(b, c); XorAssoc(c, b, d); }
      Xor(a, Xor(c, Xor(b, d)));
      { XorAssoc(a, c, Xor(b, d)); }
      Xor(Xor(a, c), Xor(b, d));
    }
  }

  lemma XorZeroMeansEqual(a: word, b: word)
    requires Xor(a, b) == 0
    ensures a == b
  {
    hide *;
    XorAssoc(a, b, b);
    XorSelf(b);
    XorSelf(a);
  }

  // ----- shifting is linear and, within the register, one to one

  lemma HalfXor(a: word, b: word)
    ensures Half(Xor(a, b)) == Xor(Half(a), Half(b))
  {
    calc {
      Half(Xor(a, b));
      (a ^ b) >> 1;
      (a >> 1) ^ (b >> 1);
      Xor(Half(a), Half(b));
    }
  }

  lemma LowXor(a: word, b: word)
    ensures (Xor(a, b) & 1 == 1) <==> ((a & 1 == 1) != (b & 1 == 1))
  {
  }

  lemma FeedbackXor(poly: word, a: word, b: word)
    ensures Feedback(poly, Xor(a, b)) == Xor(Feedback(poly, a), Feedback(poly, b))
  {
    hide Xor;
    LowXor(a, b);
    XorSelf(poly);
    XorSelf(0);
  }

  lemma ShiftXor(poly: word, a: word, b: word)
    ensures Shift(poly, Xor(a, b)) == Xor(Shift(poly, a), Shift(poly, b))
  {
    hide Xor, Feedback, Half;
    HalfXor(a, b);
    FeedbackXor(poly, a, b);
    XorExchange(Half(a), Half(b), Feedback(poly, a), Feedback(poly, b));
  }

  lemma ShiftZero(poly: word, top: word, d: word)
    requires IsRegister(poly, top) && Fits(d, top) && Shift(poly, d) == 0
    ensures d == 0
  {
  }

  lemma ShiftFits(poly: word, top: word, c: word)
    requires IsRegister(poly, top) && Fits(c, top)
    ensures Fits(Shift(poly, c), top)
  {
  }

  lemma XorFits(top: word, a: word, b: word)
    requires Fits(a, top) && Fits(b, top)
    ensures Fits(Xor(a, b), top)
  {
  }

  lemma ShiftInjective(poly: word, top: word, a: word, b: word)
    requires IsRegister(poly, top) && Fits(a, top) && Fits(b, top) && Shift(poly, a) == Shift(poly, b)
    ensures a == b
  {
    hide *;
    ShiftXor(poly, a, b);
    XorSelf(Shift(poly, a));
    XorFits(top, a, b);
    ShiftZero(poly, top, Xor(a, b));
    XorZeroMeansEqual(a, b);
  }

  lemma XorCancel(a: word, b: word, w: word)
    requires Xor(a, w) == Xor(b, w)
    ensures a == b
  {
    hide *;
    XorAssoc(a, w, w);
    XorAssoc(b, w, w);
    XorSelf(w);
    XorSelf(a);
    XorSelf(b);
  }

  lemma BitWordFits(bit: bool, top: word)
    ensures Fits(BitWord(bit), top)
  {
  }

  lemma {:induction false} FeedFits(poly: word, top: word, c: word, bits: seq<bool>)
    requires IsRegister(poly, top) && Fits(c, top)
    ensures Fits(Feed(poly, c, bits), top)
    decreases |bits|
  {
    hide Xor, Shift, Fits, IsRegister, BitWord, Feedback;
    if bits != [] {
      BitWordFits(bits[0], top);
      XorFits(top, c, BitWord(bits[0]));
      ShiftFits(poly, top, Xor(c, BitWord(bits[0])));
      FeedFits(poly, top, FeedBit(poly, c, bits[0]), bits[1..]);
    }
  }

  /** The same suffix keeps different registers different. */
  lemma {:induction false} FeedInjective(poly: word, top: word, a: word, b: word, bits: seq<bool>)
    requires IsRegister(poly, top) && Fits(a, top) && Fits(b, top) && Feed(poly, a, bits) == Feed(poly, b, bits)
    ensures a == b
    decreases |bits|
  {
    hide Xor, Shift, Fits, IsRegister, BitWord, Feedback;
    if bits != [] {
      var w := BitWord(bits[0]);
      BitWordFits(bits[0], top);
      XorFits(top, a, w);
      XorFits(top, b, w);
      ShiftFits(poly, top, Xor(a, w));
      ShiftFits(poly, top, Xor(b, w));
      FeedInjective(poly, top, FeedBit(poly, a, bits[0]), FeedBit(poly, b, bits[0]), bits[1..]);
      ShiftInjective(poly, top, Xor(a, w), Xor(b, w));
      XorCancel(a, b, w);
    }
  }

  lemma {:induction false} ShiftNInjective(poly: word, top: word, a: word, b: word, n: nat)
    requires IsRegister(poly, top) && Fits(a, top) && Fits(b, top) && ShiftN(poly, a, n) == ShiftN(poly, b, n)
    ensures a == b
    decreases n
  {
    hide Xor, Shift, Fits, IsRegister, Feedback;
    if n != 0 {
      ShiftFits(poly, top, a);
      ShiftFits(poly, top, b);
      ShiftNInjective(poly, top, Shift(poly, a), Shift(poly, b), n - 1);
      ShiftInjective(poly, top, a, b);
    }
  }

  // ----- feeding is a homomorphism on concatenation

  lemma {:induction false} FeedConcat(poly: word, c: word, a: seq<bool>, b: seq<bool>)
    ensures Feed(poly, c, a + b) == Feed(poly, Feed(poly, c, a), b)
    decreases |a|
  {
    hide FeedBit;
    if a == [] {
      assert a + b == b;
    } else {
      assert (a + b)[1..] == a[1..] + b;
      FeedConcat(poly, FeedBit(poly, c, a[0]), a[1..], b);
    }
  }

  lemma {:induction false} BitsConcat(a: seq<bv8>, b: seq<bv8>)
    ensures Bits(a + b) == Bits(a) + Bits(b)
    decreases |a|
  {
    hide ByteBits;
    if a == [] {
      assert a + b == b;
    } else {
      assert (a + b)[1..] == a[1..] + b;
      BitsConcat(a[1..], b);
    }
  }

  lemma FeedBytesConcat(poly: word, c: word, a: seq<bv8>, b: seq<bv8>)
    ensures FeedBytes(poly, c, a + b) == FeedBytes(poly, FeedBytes(poly, c, a), b)
  {
    hide Feed, Bits;
    BitsConcat(a, b);
    FeedConcat(poly, c, Bits(a), Bits(b));
  }

  lemma FeedBytesCons(poly: word, c: word, bytes: seq<bv8>)
    requires bytes != []
    ensures FeedBytes(poly, c, bytes) == FeedBytes(poly, Feed(poly, c, ByteBits(bytes[0])), bytes[1..])
  {
    hide Feed, ByteBits;
    FeedConcat(poly, c, ByteBits(bytes[0]), Bits(bytes[1..]));
  }

  // ----- bits fed one by one, or mixed in beforehand as one word

  /** The bits as a word, the first one lowest. */
  function BitsWord(bits: seq<bool>): word
    decreases |bits|
  {
    if bits == [] then 0 else Xor(BitWord(bits[0]), Double(BitsWord(bits[1..])))
  }

  function MaskUp(m: word): word {
    (m << 1) | 1
  }

  function LowMask(n: nat): word {
    if n == 0 then 0 else MaskUp(LowMask(n - 1))
  }

  predicate Within(w: word, m: word) {
    w & m == w
  }

  lemma MaskStep(w: word, m: word, bit: bool)
    requires Within(w, m)
    ensures Within(Xor(BitWord(bit), Double(w)), MaskUp(m))
  {
  }

  lemma {:induction false} BitsWordMasked(bits: seq<bool>)
    ensures Within(BitsWord(bits), LowMask(|bits|))
    decreases |bits|
  {
    hide Xor, BitWord, Double, MaskUp;
    if bits == [] {
    } else {
      BitsWordMasked(bits[1..]);
      hide Within;
      MaskStep(BitsWord(bits[1..]), LowMask(|bits| - 1), bits[0]);
    }
  }

  lemma WithinTrans(a: word, b: word, c: word)
    requires Within(a, b) && Within(b, c)
    ensures Within(a, c)
  {
    assert a & c == (a & b) & c == a & (b & c) == a & b;
  }

  lemma MaskUpMonotone(a: word, b: word)
    requires Within(a, b)
    ensures Within(MaskUp(a), MaskUp(b))
  {
  }

  lemma {:induction false} LowMaskGrows(n: nat)
    ensures Within(LowMask(n), LowMask(n + 1))
  {
    hide MaskUp;
    if n == 0 {
    } else {
      hide Within;
      LowMaskGrows(n - 1);
      MaskUpMonotone(LowMask(n - 1), LowMask(n));
    }
  }

  lemma {:induction false} LowMaskMonotone(m: nat, n: nat)
    requires m <= n
    ensures Within(LowMask(m), LowMask(n))
    decreases n - m
  {
    hide MaskUp;
    if m != n {
      hide Within;
      LowMaskGrows(m);
      LowMaskMonotone(m + 1, n);
      WithinTrans(LowMask(m), LowMask(m + 1), LowMask(n));
    }
  }

  lemma LowMaskUp4(n: nat)
    ensures LowMask(n + 4) == MaskUp(MaskUp(MaskUp(MaskUp(LowMask(n)))))
  {
    hide MaskUp;
    assert LowMask(n + 2) == MaskUp(LowMask(n + 1));
    assert LowMask(n + 4) == MaskUp(LowMask(n + 3));
  }

  lemma LowMaskValues()
    ensures LowMask(16) == 0xffff && LowMask(31) == 0x7fff_ffff
  {
    LowMaskUp4(0);
    LowMaskUp4(4);
    LowMaskUp4(8);
    LowMaskUp4(12);
    LowMaskUp4(16);
    LowMaskUp4(20);
    LowMaskUp4(24);
    assert LowMask(29) == 0x1fff_ffff;
    assert LowMask(30) == 0x3fff_ffff;
  }

  /** A word of at most 31 bits can be doubled without losing its top bit. */
  lemma HalfDouble(bits: seq<bool>)
    requires |bits| <= 31
    ensures Half(Double(BitsWord(bits))) == BitsWord(bits)
  {
    hide BitsWord;
    LowMaskValues();
    BitsWordMasked(bits);
    LowMaskMonotone(|bits|, 31);
    WithinTrans(BitsWord(bits), LowMask(|bits|), LowMask(31));
    HalfDoubleWord(BitsWord(bits));
  }

  lemma HalfDoubleWord(w: word)
    requires Within(w, 0x7fff_ffff)
    ensures Half(Double(w)) == w
  {
  }

  lemma DoubleIsEven(w: word)
    ensures Double(w) & 1 == 0
  {
  }

  /** A word with a clear low bit passes through one shift untouched. */
  lemma ShiftEven(poly: word, c: word, w: word)
    requires w & 1 == 0
    ensures Shift(poly, Xor(c, w)) == Xor(Shift(poly, c), Half(w))
  {
    hide Xor, Half;
    ShiftXor(poly, c, w);
    XorSelf(Half(w));
  }

  /** Feeding bits one by one is mixing them in at once and shifting. */
  lemma {:induction false} FeedEarly(poly: word, c: word, bits: seq<bool>)
    requires |bits| <= 32
    ensures Feed(poly, c, bits) == ShiftN(poly, Xor(c, BitsWord(bits)), |bits|)
    decreases |bits|
  {
    hide Xor, Shift, BitWord, Double;
    if bits == [] {
      XorSelf(c);
    } else {
      var b, r := BitWord(bits[0]), bits[1..];
      var w := BitsWord(r);
      FeedEarly(poly, FeedBit(poly, c, bits[0]), r);
      HalfDouble(r);
      DoubleIsEven(w);
      hide Half;
      ShiftEven(poly, Xor(c, b), Double(w));
      XorAssoc(c, b, Double(w));
    }
  }

  lemma SplitWord(a: bool, b: bool, v: word, w: word)
    requires Half(Double(v)) == v && Half(Double(w)) == w
    requires Xor(BitWord(a), Double(v)) == Xor(BitWord(b), Double(w))
    ensures a == b && v == w
  {
    hide Xor, Half, Double;
    DoubleIsEven(v);
    DoubleIsEven(w);
    LowXor(BitWord(a), Double(v));
    LowXor(BitWord(b), Double(w));
    XorComm(BitWord(a), Double(v));
    XorComm(BitWord(b), Double(w));
    XorCancel(Double(v), Double(w), BitWord(a));
  }

  lemma {:induction false} BitsWordInjective(a: seq<bool>, b: seq<bool>)
    requires |a| == |b| <= 32 && BitsWord(a) == BitsWord(b)
    ensures a == b
    decreases |a|
  {
    hide Xor, BitWord, Double, Half;
    if a != [] {
      HalfDouble(a[1..]);
      HalfDouble(b[1..]);
      SplitWord(a[0], b[0], BitsWord(a[1..]), BitsWord(b[1..]));
      BitsWordInjective(a[1..], b[1..]);
      assert a == [a[0]] + a[1..] && b == [b[0]] + b[1..];
    }
  }

  lemma {:induction false} BitsWordFits(top: word, bits: seq<bool>)
    requires |bits| <= Width(top)
    ensures Fits(BitsWord(bits), top)
  {
    hide BitsWord;
    if top == 0x8000 {
      LowMaskValues();
      BitsWordMasked(bits);
      LowMaskMonotone(|bits|, 16);
      WithinTrans(BitsWord(bits), LowMask(|bits|), LowMask(16));
    }
  }

  // ----- error detection

  /** Two messages that differ, and only inside one window of `n` consecutive bits. */
  ghost predicate DifferWithin(f: seq<bool>, g: seq<bool>, at: nat, n: nat) {
    |f| == |g| && at + n <= |f| && f != g && f[..at] == g[..at] && f[at + n..] == g[at + n..]
  }

  /** A burst no longer than the register always changes it, wherever it sits and whatever follows. */
  lemma BurstChangesRegister(poly: word, top: word, c: word, f: seq<bool>, g: seq<bool>, at: nat, n: nat)
    requires IsRegister(poly, top) && Fits(c, top)
    requires DifferWithin(f, g, at, n) && n <= Width(top)
    ensures Feed(poly, c, f) != Feed(poly, c, g)
  {
    hide Feed, BitsWord, IsRegister, Fits;
    var x, y, post := f[at..at + n], g[at..at + n], f[at + n..];
    assert f == f[..at] + x + post;
    assert g == f[..at] + y + post;
    var d := Feed(poly, c, f[..at]);
    FeedConcat(poly, c, f[..at] + x, post);
    FeedConcat(poly, c, f[..at] + y, post);
    FeedConcat(poly, c, f[..at], x);
    FeedConcat(poly, c, f[..at], y);
    FeedFits(poly, top, c, f[..at]);
    FeedFits(poly, top, d, x);
    FeedFits(poly, top, d, y);
    if Feed(poly, c, f) == Feed(poly, c, g) {
      FeedInjective(poly, top, Feed(poly, d, x), Feed(poly, d, y), post);
      WindowInjective(poly, top, d, x, y);
      assert false;
    }
  }

  lemma WindowInjective(poly: word, top: word, c: word, x: seq<bool>, y: seq<bool>)
    requires IsRegister(poly, top) && Fits(c, top)
    requires |x| == |y| <= Width(top) && Feed(poly, c, x) == Feed(poly, c, y)
    ensures x == y
  {
    hide Feed, BitsWord, IsRegister, Fits, Xor;
    FeedEarly(poly, c, x);
    FeedEarly(poly, c, y);
    var v, w := BitsWord(x), BitsWord(y);
    BitsWordFits(top, x);
    BitsWordFits(top, y);
    XorFits(top, c, v);
    XorFits(top, c, w);
    ShiftNInjective(poly, top, Xor(c, v), Xor(c, w), |x|);
    XorComm(c, v);
    XorComm(c, w);
    XorCancel(v, w, c);
    BitsWordInjective(x, y);
  }

  // ----- bursts given in bytes

  lemma ByteBitsInjective(a: bv8, b: bv8)
    requires ByteBits(a) == ByteBits(b)
    ensures a == b
  {
    var s, t := ByteBits(a), ByteBits(b);
    assert s[0] == t[0] && s[1] == t[1] && s[2] == t[2] && s[3] == t[3];
    assert s[4] == t[4] && s[5] == t[5] && s[6] == t[6] && s[7] == t[7];
    SameBits(a, b);
  }

  lemma SameBits(a: bv8, b: bv8)
    requires BitAt(a, 1) == BitAt(b, 1) && BitAt(a, 2) == BitAt(b, 2) && BitAt(a, 4) == BitAt(b, 4)
    requires BitAt(a, 8) == BitAt(b, 8) && BitAt(a, 16) == BitAt(b, 16) && BitAt(a, 32) == BitAt(b, 32)
    requires BitAt(a, 64) == BitAt(b, 64) && BitAt(a, 128) == BitAt(b, 128)
    ensures a == b
  {
  }

  lemma {:induction false} BitsInjective(a: seq<bv8>, b: seq<bv8>)
    requires |a| == |b| && Bits(a) == Bits(b)
    ensures a == b
    decreases |a|
  {
    hide ByteBits;
    if a != [] {
      assert ByteBits(a[0]) == Bits(a)[..8] == Bits(b)[..8] == ByteBits(b[0]);
      assert Bits(a[1..]) == Bits(a)[8..] == Bits(b)[8..] == Bits(b[1..]);
      ByteBitsInjective(a[0], b[0]);
      BitsInjective(a[1..], b[1..]);
      assert a == [a[0]] + a[1..] && b == [b[0]] + b[1..];
    }
  }

  lemma BitsSplit(a: seq<bv8>, k: nat)
    requires k <= |a|
    ensures Bits(a)[..8 * k] == Bits(a[..k]) && Bits(a)[8 * k..] == Bits(a[k..])
  {
    hide Bits;
    BitsConcat(a[..k], a[k..]);
    assert a == a[..k] + a[k..];
  }

  /** Two packets that differ, and only inside one window of `n` consecutive bytes. */
  ghost predicate BytesDifferWithin(f: seq<bv8>, g: seq<bv8>, at: nat, n: nat) {
    |f| == |g| && at + n <= |f| && f != g && f[..at] == g[..at] && f[at + n..] == g[at + n..]
  }

  lemma ByteBurstIsBitBurst(f: seq<bv8>, g: seq<bv8>, at: nat, n: nat)
    requires BytesDifferWithin(f, g, at, n)
    ensures DifferWithin(Bits(f), Bits(g), 8 * at, 8 * n)
  {
    hide Bits;
    BitsSplit(f, at);
    BitsSplit(g, at);
    BitsSplit(f, at + n);
    BitsSplit(g, at + n);
    if Bits(f) == Bits(g) {
      BitsInjective(f, g);
    }
  }

  // ----- a byte at a time

  function Shift8(poly: word, c: word): word {
    ShiftN(poly, c, 8)
  }

  function Byte(b: bv8): word {
    b as word
  }

  lemma Unfold4(s: seq<bool>)
    requires |s| >= 4
    ensures BitsWord(s) == Xor(BitWord(s[0]), Double(Xor(BitWord(s[1]), Double(Xor(BitWord(s[2]), Double(
                             Xor(BitWord(s[3]), Double(BitsWord(s[4..])))))))))
  {
    hide Xor, Double, BitWord;
    assert s[1..][1..] == s[2..] && s[2..][1..] == s[3..] && s[3..][1..] == s[4..];
  }

  lemma ByteFromBits(b: bv8)
    ensures Xor(BitWord(BitAt(b, 1)), Double(Xor(BitWord(BitAt(b, 2)), Double(Xor(BitWord(BitAt(b, 4)), Double(
              Xor(BitWord(BitAt(b, 8)), Double(Xor(BitWord(BitAt(b, 16)), Double(Xor(BitWord(BitAt(b, 32)), Double(
              Xor(BitWord(BitAt(b, 64)), Double(Xor(BitWord(BitAt(b, 128)), Double(BitsWord([])))))))))))))))))
            == Byte(b)
  {
  }

  lemma ByteBitsWord(b: bv8)
    ensures BitsWord(ByteBits(b)) == Byte(b)
  {
    hide BitsWord, BitWord, Xor, Double, BitAt;
    var s := ByteBits(b);
    Unfold4(s);
    Unfold4(s[4..]);
    assert s[4..][4..] == [];
    ByteFromBits(b);
  }

  /** Eight single-bit steps are one mix and eight shifts. */
  lemma FeedByte(poly: word, c: word, b: bv8)
    ensures Feed(poly, c, ByteBits(b)) == Shift8(poly, Xor(c, Byte(b)))
  {
    hide Feed, BitsWord, ByteBits, Byte;
    FeedEarly(poly, c, ByteBits(b));
    ByteBitsWord(b);
  }

  function HalfN(w: word, n: nat): word
    decreases n
  {
    if n == 0 then w else HalfN(Half(w), n - 1)
  }

  predicate LowClear(w: word, n: nat)
    decreases n
  {
    n == 0 || (w & 1 == 0 && LowClear(Half(w), n - 1))
  }

  lemma {:induction false} ShiftNClear(poly: word, c: word, w: word, n: nat)
    requires LowClear(w, n)
    ensures ShiftN(poly, Xor(c, w), n) == Xor(ShiftN(poly, c, n), HalfN(w, n))
    decreases n
  {
    hide Xor, Shift, Half;
    if n != 0 {
      ShiftEven(poly, c, w);
      ShiftNClear(poly, Shift(poly, c), Half(w), n - 1);
    }
  }

  function LowByte(w: word): bv8 {
    (w & 0xff) as bv8
  }

  function HighBytes(w: word): word {
    w & 0xffff_ff00
  }

  function DropByte(w: word): word {
    w >> 8
  }

  lemma HalfStep(w: word, v: word, n: nat)
    requires v == Half(w)
    ensures HalfN(w, n + 1) == HalfN(v, n)
    ensures w & 1 == 0 && LowClear(v, n) ==> LowClear(w, n + 1)
  {
  }

  /** Two halvings at once, then four: each step stays small. */
  lemma HalfTwice(w: word, n: nat)
    ensures HalfN(w, n + 2) == HalfN(w >> 2, n)
    ensures w & 3 == 0 && LowClear(w >> 2, n) ==> LowClear(w, n + 2)
  {
    assert w & 3 == 0 ==> w & 1 == 0 && (w >> 1) & 1 == 0;
    HalfStep(w, w >> 1, n + 1);
    assert Half(w >> 1) == w >> 2;
    HalfStep(w >> 1, w >> 2, n);
  }

  function DropNibble(w: word): word {
    w >> 4
  }

  predicate LowNibbleClear(w: word) {
    w & 15 == 0
  }

  lemma HalfFour(w: word, n: nat)
    ensures HalfN(w, n + 4) == HalfN(DropNibble(w), n)
    ensures LowNibbleClear(w) && LowClear(DropNibble(w), n) ==> LowClear(w, n + 4)
  {
    hide HalfN, LowClear;
    assert w & 15 == 0 ==> w & 3 == 0 && (w >> 2) & 3 == 0;
    HalfTwice(w, n + 2);
    assert (w >> 2) >> 2 == w >> 4;
    HalfTwice(w >> 2, n);
  }

  lemma ClearLowByte(w: word)
    ensures LowNibbleClear(HighBytes(w)) && LowNibbleClear(DropNibble(HighBytes(w)))
    ensures DropNibble(DropNibble(HighBytes(w))) == DropByte(w)
  {
  }

  lemma HighBytesClear(w: word)
    ensures LowClear(HighBytes(w), 8) && HalfN(HighBytes(w), 8) == DropByte(w)
  {
    hide HighBytes, DropByte, DropNibble, LowNibbleClear, Half;
    ClearLowByte(w);
    HalfFour(HighBytes(w), 4);
    HalfFour(DropNibble(HighBytes(w)), 0);
  }

  lemma SplitLowByte(w: word)
    ensures Xor(Byte(LowByte(w)), HighBytes(w)) == w
  {
  }

  lemma ByteBelow(c: word, b: bv8)
    ensures DropByte(Xor(c, Byte(b))) == DropByte(c)
  {
  }

  /** What one table lookup has to deliver: the byte leaves the register, its shifted image enters. */
  lemma TableStep(poly: word, c: word, b: bv8)
    ensures Feed(poly, c, ByteBits(b)) == Xor(DropByte(c), Shift8(poly, Byte(LowByte(Xor(c, Byte(b))))))
  {
    hide Feed, ByteBits, Byte, Xor, ShiftN, LowByte, HalfN, LowClear, HighBytes, DropByte;
    var x := Xor(c, Byte(b));
    FeedByte(poly, c, b);
    HighBytesClear(x);
    SplitLowByte(x);
    ShiftNClear(poly, Byte(LowByte(x)), HighBytes(x), 8);
    ByteBelow(c, b);
    XorComm(DropByte(c), Shift8(poly, Byte(LowByte(x))));
  }

  function TwoBytes(lo: bv8, hi: bv8): word {
    Xor(Byte(lo), Byte(hi) << 8)
  }

  lemma HighOnly(hi: bv8)
    ensures HighBytes(Byte(hi) << 8) == Byte(hi) << 8 && DropByte(Byte(hi) << 8) == Byte(hi)
  {
  }

  /** Two bytes in a row are one mix and sixteen shifts. */
  lemma FeedTwoBytes(poly: word, c: word, lo: bv8, hi: bv8)
    ensures FeedBytes(poly, c, [lo, hi]) == Shift8(poly, Shift8(poly, Xor(c, TwoBytes(lo, hi))))
  {
    hide Feed, ByteBits, Byte, Xor, Shift8, HalfN, LowClear, HighBytes, DropByte;
    var h := Byte(hi) << 8;
    assert Bits([lo, hi]) == ByteBits(lo) + ByteBits(hi) by {
      assert [lo, hi][1..] == [hi] && [hi][1..] == [];
    }
    FeedConcat(poly, c, ByteBits(lo), ByteBits(hi));
    FeedByte(poly, c, lo);
    FeedByte(poly, Shift8(poly, Xor(c, Byte(lo))), hi);
    HighBytesClear(h);
    HighOnly(hi);
    ShiftClear8(poly, Xor(c, Byte(lo)), h);
    XorAssoc(c, Byte(lo), h);
  }

  lemma ShiftClear8(poly: word, c: word, w: word)
    requires LowClear(w, 8)
    ensures Shift8(poly, Xor(c, w)) == Xor(Shift8(poly, c), HalfN(w, 8))
  {
    hide ShiftN, Xor, LowClear, HalfN;
    ShiftNClear(poly, c, w, 8);
  }

  lemma Shift8Injective(poly: word, top: word, a: word, b: word)
    requires IsRegister(poly, top) && Fits(a, top) && Fits(b, top) && Shift8(poly, a) == Shift8(poly, b)
    ensures a == b
  {
    hide ShiftN, IsRegister, Fits;
    ShiftNInjective(poly, top, a, b, 8);
  }

  lemma {:induction false} ShiftNFits(poly: word, top: word, c: word, n: nat)
    requires IsRegister(poly, top) && Fits(c, top)
    ensures Fits(ShiftN(poly, c, n), top)
    decreases n
  {
    hide IsRegister, Fits, Shift;
    if n != 0 {
      ShiftFits(poly, top, c);
      ShiftNFits(poly, top, Shift(poly, c), n - 1);
    }
  }

  // ----- a table from its eight single-bit entries

  function Pick(i: bv8, mask: bv8, w: word): word {
    if BitAt(i, mask) then w else 0
  }

  /** The entry for `i`, given the entries for the eight bytes with a single bit set. */
  function Combine(i: bv8, e0: word, e1: word, e2: word, e3: word, e4: word, e5: word, e6: word, e7: word): word {
    Xor(Pick(i, 1, e0), Xor(Pick(i, 2, e1), Xor(Pick(i, 4, e2), Xor(Pick(i, 8, e3),
      Xor(Pick(i, 16, e4), Xor(Pick(i, 32, e5), Xor(Pick(i, 64, e6), Pick(i, 128, e7))))))))
  }

  lemma {:induction false} ShiftNXor(poly: word, a: word, b: word, n: nat)
    ensures ShiftN(poly, Xor(a, b), n) == Xor(ShiftN(poly, a, n), ShiftN(poly, b, n))
    decreases n
  {
    hide Xor, Shift;
    if n != 0 {
      ShiftXor(poly, a, b);
      ShiftNXor(poly, Shift(poly, a), Shift(poly, b), n - 1);
    }
  }

  lemma {:induction false} ShiftNZero(poly: word, n: nat)
    ensures ShiftN(poly, 0, n) == 0
    decreases n
  {
    if n != 0 {
      assert Shift(poly, 0) == 0;
      ShiftNZero(poly, n - 1);
    }
  }

  lemma PickShift(poly: word, i: bv8, mask: bv8, w: word)
    ensures Shift8(poly, Pick(i, mask, w)) == Pick(i, mask, Shift8(poly, w))
  {
    hide BitAt, ShiftN;
    ShiftNZero(poly, 8);
  }

  lemma XorShift(poly: word, a: word, b: word)
    ensures Shift8(poly, Xor(a, b)) == Xor(Shift8(poly, a), Shift8(poly, b))
  {
    hide Xor, ShiftN;
    ShiftNXor(poly, a, b, 8);
  }

  lemma ByteIsCombine(i: bv8)
    ensures Byte(i) == Combine(i, 1, 2, 4, 8, 16, 32, 64, 128)
  {
  }

  /** Eight shifts of any byte follow from eight shifts of the single bits. */
  lemma Shift8Combine(poly: word, i: bv8)
    ensures Shift8(poly, Byte(i))
            == Combine(i, Shift8(poly, 1), Shift8(poly, 2), Shift8(poly, 4), Shift8(poly, 8),
                       Shift8(poly, 16), Shift8(poly, 32), Shift8(poly, 64), Shift8(poly, 128))
  {
    hide Xor, Pick, Shift8, Byte;
    ByteIsCombine(i);
    var w7 := Pick(i, 128, 128);
    var w6 := Xor(Pick(i, 64, 64), w7);
    var w5 := Xor(Pick(i, 32, 32), w6);
    var w4 := Xor(Pick(i, 16, 16), w5);
    var w3 := Xor(Pick(i, 8, 8), w4);
    var w2 := Xor(Pick(i, 4, 4), w3);
    var w1 := Xor(Pick(i, 2, 2), w2);
    XorShift(poly, Pick(i, 1, 1), w1);
    XorShift(poly, Pick(i, 2, 2), w2);
    XorShift(poly, Pick(i, 4, 4), w3);
    XorShift(poly, Pick(i, 8, 8), w4);
    XorShift(poly, Pick(i, 16, 16), w5);
    XorShift(poly, Pick(i, 32, 32), w6);
    XorShift(poly, Pick(i, 64, 64), w7);
    PickShift(poly, i, 1, 1);
    PickShift(poly, i, 2, 2);
    PickShift(poly, i, 4, 4);
    PickShift(poly, i, 8, 8);
    PickShift(poly, i, 16, 16);
    PickShift(poly, i, 32, 32);
    PickShift(poly, i, 64, 64);
    PickShift(poly, i, 128, 128);
  }

  function EightShifts(poly: word, c: word): word {
    Shift(poly, Shift(poly, Shift(poly, Shift(poly, Shift(poly, Shift(poly, Shift(poly, Shift(poly, c))))))))
  }

  lemma Shift8Unfold(poly: word, c: word)
    ensures Shift8(poly, c) == EightShifts(poly, c)
  {
    hide Shift;
    var c4 := Shift(poly, Shift(poly, Shift(poly, Shift(poly, c))));
    assert ShiftN(poly, c, 8) == ShiftN(poly, Shift(poly, Shift(poly, c)), 6);
    assert ShiftN(poly, Shift(poly, Shift(poly, c)), 6) == ShiftN(poly, c4, 4);
    assert ShiftN(poly, c4, 4) == ShiftN(poly, Shift(poly, Shift(poly, c4)), 2);
  }
}
