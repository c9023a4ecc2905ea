/** The HDLC frame check sequence (appendix B of RFC 1171) and the frame an AXUDP sender builds with it. */
module CrcPpp {
  import opened ShiftRegister

  const POLYNOMIAL: word := 0x8408
  const TOP: word := 0x8000
  const PPPINITFCS: word := 0xffff
  const PPPGOODFCS: word := 0xf0b8

  // ----- the lookup table, sixteen rows of sixteen entries

  function Row0(j: bv8): word {
    match j
    case 0x0 => 0x0000 case 0x1 => 0x1189 case 0x2 => 0x2312 case 0x3 => 0x329b
    case 0x4 => 0x4624 case 0x5 => 0x57ad case 0x6 => 0x6536 case 0x7 => 0x74bf
    case 0x8 => 0x8c48 case 0x9 => 0x9dc1 case 0xa => 0xaf5a case 0xb => 0xbed3
    case 0xc => 0xca6c case 0xd => 0xdbe5 case 0xe => 0xe97e case _ => 0xf8f7
  }

  function Row1(j: bv8): word {
    match j
    case 0x0 => 0x1081 case 0x1 => 0x0108 case 0x2 => 0x3393 case 0x3 => 0x221a
    case 0x4 => 0x56a5 case 0x5 => 0x472c case 0x6 => 0x75b7 case 0x7 => 0x643e
    case 0x8 => 0x9cc9 case 0x9 => 0x8d40 case 0xa => 0xbfdb case 0xb => 0xae52
    case 0xc => 0xdaed case 0xd => 0xcb64 case 0xe => 0xf9ff case _ => 0xe876
  }

  function Row2(j: bv8): word {
    match j
    case 0x0 => 0x2102 case 0x1 => 0x308b case 0x2 => 0x0210 case 0x3 => 0x1399
    case 0x4 => 0x6726 case 0x5 => 0x76af case 0x6 => 0x4434 case 0x7 => 0x55bd
    case 0x8 => 0xad4a case 0x9 => 0xbcc3 case 0xa => 0x8e58 case 0xb => 0x9fd1
    case 0xc => 0xeb6e case 0xd => 0xfae7 case 0xe => 0xc87c case _ => 0xd9f5
  }

  function Row3(j: bv8): word {
    match j
    case 0x0 => 0x3183 case 0x1 => 0x200a case 0x2 => 0x1291 case 0x3 => 0x0318
    case 0x4 => 0x77a7 case 0x5 => 0x662e case 0x6 => 0x54b5 case 0x7 => 0x453c
    case 0x8 => 0xbdcb case 0x9 => 0xac42 case 0xa => 0x9ed9 case 0xb => 0x8f50
    case 0xc => 0xfbef case 0xd => 0xea66 case 0xe => 0xd8fd case _ => 0xc974
  }

  function Row4(j: bv8): word {
    match j
    case 0x0 => 0x4204 case 0x1 => 0x538d case 0x2 => 0x6116 case 0x3 => 0x709f
    case 0x4 => 0x0420 case 0x5 => 0x15a9 case 0x6 => 0x2732 case 0x7 => 0x36bb
    case 0x8 => 0xce4c case 0x9 => 0xdfc5 case 0xa => 0xed5e case 0xb => 0xfcd7
    case 0xc => 0x8868 case 0xd => 0x99e1 case 0xe => 0xab7a case _ => 0xbaf3
  }

  function Row5(j: bv8): word {
    match j
    case 0x0 => 0x5285 case 0x1 => 0x430c case 0x2 => 0x7197 case 0x3 => 0x601e
    case 0x4 => 0x14a1 case 0x5 => 0x0528 case 0x6 => 0x37b3 case 0x7 => 0x263a
    case 0x8 => 0xdecd case 0x9 => 0xcf44 case 0xa => 0xfddf case 0xb => 0xec56
    case 0xc => 0x98e9 case 0xd => 0x8960 case 0xe => 0xbbfb case _ => 0xaa72
  }

  function Row6(j: bv8): word {
    match j
    case 0x0 => 0x6306 case 0x1 => 0x728f case 0x2 => 0x4014 case 0x3 => 0x519d
    case 0x4 => 0x2522 case 0x5 => 0x34ab case 0x6 => 0x0630 case 0x7 => 0x17b9
    case 0x8 => 0xef4e case 0x9 => 0xfec7 case 0xa => 0xcc5c case 0xb => 0xddd5
    case 0xc => 0xa96a case 0xd => 0xb8e3 case 0xe => 0x8a78 case _ => 0x9bf1
  }

  function Row7(j: bv8): word {
    match j
    case 0x0 => 0x7387 case 0x1 => 0x620e case 0x2 => 0x5095 case 0x3 => 0x411c
    case 0x4 => 0x35a3 case 0x5 => 0x242a case 0x6 => 0x16b1 case 0x7 => 0x0738
    case 0x8 => 0xffcf case 0x9 => 0xee46 case 0xa => 0xdcdd case 0xb => 0xcd54
    case 0xc => 0xb9eb case 0xd => 0xa862 case 0xe => 0x9af9 case _ => 0x8b70
  }

  function Row8(j: bv8): word {
    match j
    case 0x0 => 0x8408 case 0x1 => 0x9581 case 0x2 => 0xa71a case 0x3 => 0xb693
    case 0x4 => 0xc22c case 0x5 => 0xd3a5 case 0x6 => 0xe13e case 0x7 => 0xf0b7
    case 0x8 => 0x0840 case 0x9 => 0x19c9 case 0xa => 0x2b52 case 0xb => 0x3adb
    case 0xc => 0x4e64 case 0xd => 0x5fed case 0xe => 0x6d76 case _ => 0x7cff
  }

  function Row9(j: bv8): word {
    match j
    case 0x0 => 0x9489 case 0x1 => 0x8500 case 0x2 => 0xb79b case 0x3 => 0xa612
    case 0x4 => 0xd2ad case 0x5 => 0xc324 case 0x6 => 0xf1bf case 0x7 => 0xe036
    case 0x8 => 0x18c1 case 0x9 => 0x0948 case 0xa => 0x3bd3 case 0xb => 0x2a5a
    case 0xc => 0x5ee5 case 0xd => 0x4f6c case 0xe => 0x7df7 case _ => 0x6c7e
  }

  function RowA(j: bv8): word {
    match j
    case 0x0 => 0xa50a case 0x1 => 0xb483 case 0x2 => 0x8618 case 0x3 => 0x9791
    case 0x4 => 0xe32e case 0x5 => 0xf2a7 case 0x6 => 0xc03c case 0x7 => 0xd1b5
    case 0x8 => 0x2942 case 0x9 => 0x38cb case 0xa => 0x0a50 case 0xb => 0x1bd9
    case 0xc => 0x6f66 case 0xd => 0x7eef case 0xe => 0x4c74 case _ => 0x5dfd
  }

  function RowB(j: bv8): word {
    match j
    case 0x0 => 0xb58b case 0x1 => 0xa402 case 0x2 => 0x9699 case 0x3 => 0x8710
    case 0x4 => 0xf3af case 0x5 => 0xe226 case 0x6 => 0xd0bd case 0x7 => 0xc134
    case 0x8 => 0x39c3 case 0x9 => 0x284a case 0xa => 0x1ad1 case 0xb => 0x0b58
    case 0xc => 0x7fe7 case 0xd => 0x6e6e case 0xe => 0x5cf5 case _ => 0x4d7c
  }

  function RowC(j: bv8): word {
    match j
    case 0x0 => 0xc60c case 0x1 => 0xd785 case 0x2 => 0xe51e case 0x3 => 0xf497
    case 0x4 => 0x8028 case 0x5 => 0x91a1 case 0x6 => 0xa33a case 0x7 => 0xb2b3
    case 0x8 => 0x4a44 case 0x9 => 0x5bcd case 0xa => 0x6956 case 0xb => 0x78df
    case 0xc => 0x0c60 case 0xd => 0x1de9 case 0xe => 0x2f72 case _ => 0x3efb
  }

  function RowD(j: bv8): word {
    match j
    case 0x0 => 0xd68d case 0x1 => 0xc704 case 0x2 => 0xf59f case 0x3 => 0xe416
    case 0x4 => 0x90a9 case 0x5 => 0x8120 case 0x6 => 0xb3bb case 0x7 => 0xa232
    case 0x8 => 0x5ac5 case 0x9 => 0x4b4c case 0xa => 0x79d7 case 0xb => 0x685e
    case 0xc => 0x1ce1 case 0xd => 0x0d68 case 0xe => 0x3ff3 case _ => 0x2e7a
  }

  function RowE(j: bv8): word {
    match j
    case 0x0 => 0xe70e case 0x1 => 0xf687 case 0x2 => 0xc41c case 0x3 => 0xd595
    case 0x4 => 0xa12a case 0x5 => 0xb0a3 case 0x6 => 0x8238 case 0x7 => 0x93b1
    case 0x8 => 0x6b46 case 0x9 => 0x7acf case 0xa => 0x4854 case 0xb => 0x59dd
    case 0xc => 0x2d62 case 0xd => 0x3ceb case 0xe => 0x0e70 case _ => 0x1ff9
  }

  function RowF(j: bv8): word {
    match j
    case 0x0 => 0xf78f case 0x1 => 0xe606 case 0x2 => 0xd49d case 0x3 => 0xc514
    case 0x4 => 0xb1ab case 0x5 => 0xa022 case 0x6 => 0x92b9 case 0x7 => 0x8330
    case 0x8 => 0x7bc7 case 0x9 => 0x6a4e case 0xa => 0x58d5 case 0xb => 0x495c
    case 0xc => 0x3de3 case 0xd => 0x2c6a case 0xe => 0x1ef1 case _ => 0x0f78
  }

  function Entry(r: bv8, j: bv8): word {
    match r
    case 0x0 => Row0(j)
    case 0x1 => Row1(j)
    case 0x2 => Row2(j)
    case 0x3 => Row3(j)
    case 0x4 => Row4(j)
    case 0x5 => Row5(j)
    case 0x6 => Row6(j)
    case 0x7 => Row7(j)
    case 0x8 => Row8(j)
    case 0x9 => Row9(j)
    case 0xa => RowA(j)
    case 0xb => RowB(j)
    case 0xc => RowC(j)
    case 0xd => RowD(j)
    case 0xe => RowE(j)
    case _ => RowF(j)
  }

  function FcsTab(i: bv8): word {
    Entry(i >> 4, i & 15)
  }

  // ----- every entry is eight shifts of its index

  function FromBasis(i: bv8): word {
    (if i & 1 != 0 then 0x1189 else 0) ^ (if i & 2 != 0 then 0x2312 else 0)
    ^ (if i & 4 != 0 then 0x4624 else 0) ^ (if i & 8 != 0 then 0x8c48 else 0)
    ^ (if i & 16 != 0 then 0x1081 else 0) ^ (if i & 32 != 0 then 0x2102 else 0)
    ^ (if i & 64 != 0 then 0x4204 else 0) ^ (if i & 128 != 0 then 0x8408 else 0)
  }

  lemma Row0Basis(j: bv8)
    requires j < 16
    ensures Row0(j) == FromBasis(0x00 | j)
  {
    match j {
      case 0x0 => case 0x1 => case 0x2 => case 0x3 => case 0x4 => case 0x5 => case 0x6 => case 0x7 =>
      case 0x8 => case 0x9 => case 0xa => case 0xb => case 0xc => case 0xd => case 0xe => case _ =>
    }
  }

  lemma Row1Basis(j: bv8)
    requires j < 16
    ensures Row1(j) == FromBasis(0x10 | j)
  {
    match j {
      case 0x0 => case 0x1 => case 0x2 => case 0x3 => case 0x4 => case 0x5 => case 0x6 => case 0x7 =>
      case 0x8 => case 0x9 => case 0xa => case 0xb => case 0xc => case 0xd => case 0xe => case _ =>
    }
  }

  lemma Row2Basis(j: bv8)
    requires j < 16
    ensures Row2(j) == FromBasis(0x20 | j)
  {
    match j {
      case 0x0 => case 0x1 => case 0x2 => case 0x3 => case 0x4 => case 0x5 => case 0x6 => case 0x7 =>
      case 0x8 => case 0x9 => case 0xa => case 0xb => case 0xc => case 0xd => case 0xe => case _ =>
    }
  }

  lemma Row3Basis(j: bv8)
    requires j < 16
    ensures Row3(j) == FromBasis(0x30 | j)
  {
    match j {
      case 0x0 => case 0x1 => case 0x2 => case 0x3 => case 0x4 => case 0x5 => case 0x6 => case 0x7 =>
      case 0x8 => case 0x9 => case 0xa => case 0xb => case 0xc => case 0xd => case 0xe => case _ =>
    }
  }

  lemma Row4Basis(j: bv8)
    requires j < 16
    ensures Row4(j) == FromBasis(0x40 | j)
  {
    match j {
      case 0x0 => case 0x1 => case 0x2 => case 0x3 => case 0x4 => case 0x5 => case 0x6 => case 0x7 =>
      case 0x8 => case 0x9 => case 0xa => case 0xb => case 0xc => case 0xd => case 0xe => case _ =>
    }
  }

  lemma Row5Basis(j: bv8)
    requires j < 16
    ensures Row5(j) == FromBasis(0x50 | j)
  {
    match j {
      case 0x0 => case 0x1 => case 0x2 => case 0x3 => case 0x4 => case 0x5 => case 0x6 => case 0x7 =>
      case 0x8 => case 0x9 => case 0xa => case 0xb => case 0xc => case 0xd => case 0xe => case _ =>
    }
  }

  lemma Row6Basis(j: bv8)
    requires j < 16
    ensures Row6(j) == FromBasis(0x60 | j)
  {
    match j {
      case 0x0 => case 0x1 => case 0x2 => case 0x3 => case 0x4 => case 0x5 => case 0x6 => case 0x7 =>
      case 0x8 => case 0x9 => case 0xa => case 0xb => case 0xc => case 0xd => case 0xe => case _ =>
    }
  }

  lemma Row7Basis(j: bv8)
    requires j < 16
    ensures Row7(j) == FromBasis(0x70 | j)
  {
    match j {
      case 0x0 => case 0x1 => case 0x2 => case 0x3 => case 0x4 => case 0x5 => case 0x6 => case 0x7 =>
      case 0x8 => case 0x9 => case 0xa => case 0xb => case 0xc => case 0xd => case 0xe => case _ =>
    }
  }

  lemma Row8Basis(j: bv8)
    requires j < 16
    ensures Row8(j) == FromBasis(0x80 | j)
  {
    match j {
      case 0x0 => case 0x1 => case 0x2 => case 0x3 => case 0x4 => case 0x5 => case 0x6 => case 0x7 =>
      case 0x8 => case 0x9 => case 0xa => case 0xb => case 0xc => case 0xd => case 0xe => case _ =>
    }
  }

  lemma Row9Basis(j: bv8)
    requires j < 16
    ensures Row9(j) == FromBasis(0x90 | j)
  {
    match j {
      case 0x0 => case 0x1 => case 0x2 => case 0x3 => case 0x4 => case 0x5 => case 0x6 => case 0x7 =>
      case 0x8 => case 0x9 => case 0xa => case 0xb => case 0xc => case 0xd => case 0xe => case _ =>
    }
  }

  lemma RowABasis(j: bv8)
    requires j < 16
    ensures RowA(j) == FromBasis(0xa0 | j)
  {
    match j {
      case 0x0 => case 0x1 => case 0x2 => case 0x3 => case 0x4 => case 0x5 => case 0x6 => case 0x7 =>
      case 0x8 => case 0x9 => case 0xa => case 0xb => case 0xc => case 0xd => case 0xe => case _ =>
    }
  }

  lemma RowBBasis(j: bv8)
    requires j < 16
    ensures RowB(j) == FromBasis(0xb0 | j)
  {
    match j {
      case 0x0 => case 0x1 => case 0x2 => case 0x3 => case 0x4 => case 0x5 => case 0x6 => case 0x7 =>
      case 0x8 => case 0x9 => case 0xa => case 0xb => case 0xc => case 0xd => case 0xe => case _ =>
    }
  }

  lemma RowCBasis(j: bv8)
    requires j < 16
    ensures RowC(j) == FromBasis(0xc0 | j)
  {
    match j {
      case 0x0 => case 0x1 => case 0x2 => case 0x3 => case 0x4 => case 0x5 => case 0x6 => case 0x7 =>
      case 0x8 => case 0x9 => case 0xa => case 0xb => case 0xc => case 0xd => case 0xe => case _ =>
    }
  }

  lemma RowDBasis(j: bv8)
    requires j < 16
    ensures RowD(j) == FromBasis(0xd0 | j)
  {
    match j {
      case 0x0 => case 0x1 => case 0x2 => case 0x3 => case 0x4 => case 0x5 => case 0x6 => case 0x7 =>
      case 0x8 => case 0x9 => case 0xa => case 0xb => case 0xc => case 0xd => case 0xe => case _ =>
    }
  }

  lemma RowEBasis(j: bv8)
    requires j < 16
    ensures RowE(j) == FromBasis(0xe0 | j)
  {
    match j {
      case 0x0 => case 0x1 => case 0x2 => case 0x3 => case 0x4 => case 0x5 => case 0x6 => case 0x7 =>
      case 0x8 => case 0x9 => case 0xa => case 0xb => case 0xc => case 0xd => case 0xe => case _ =>
    }
  }

  lemma RowFBasis(j: bv8)
    requires j < 16
    ensures RowF(j) == FromBasis(0xf0 | j)
  {
    match j {
      case 0x0 => case 0x1 => case 0x2 => case 0x3 => case 0x4 => case 0x5 => case 0x6 => case 0x7 =>
      case 0x8 => case 0x9 => case 0xa => case 0xb => case 0xc => case 0xd => case 0xe => case _ =>
    }
  }

  lemma EntryBasis(r: bv8, j: bv8)
    requires r < 16 && j < 16
    ensures Entry(r, j) == FromBasis((r << 4) | j)
  {
    hide FromBasis, Row0, Row1, Row2, Row3, Row4, Row5, Row6, Row7, Row8, Row9, RowA, RowB, RowC, RowD, RowE, RowF;
    match r
    case 0x0 => Row0Basis(j);
    case 0x1 => Row1Basis(j);
    case 0x2 => Row2Basis(j);
    case 0x3 => Row3Basis(j);
    case 0x4 => Row4Basis(j);
    case 0x5 => Row5Basis(j);
    case 0x6 => Row6Basis(j);
    case 0x7 => Row7Basis(j);
    case 0x8 => Row8Basis(j);
    case 0x9 => Row9Basis(j);
    case 0xa => RowABasis(j);
    case 0xb => RowBBasis(j);
    case 0xc => RowCBasis(j);
    case 0xd => RowDBasis(j);
    case 0xe => RowEBasis(j);
    case _ => RowFBasis(j);
  }

  lemma Nibbles(i: bv8)
    ensures i >> 4 < 16 && i & 15 < 16 && ((i >> 4) << 4) | (i & 15) == i
  {
  }

  lemma TableFromBasis(i: bv8)
    ensures FcsTab(i) == FromBasis(i)
  {
    hide FromBasis, Entry;
    Nibbles(i);
    EntryBasis(i >> 4, i & 15);
  }

  lemma Basis()
    ensures Shift8(POLYNOMIAL, 1) == 0x1189 && Shift8(POLYNOMIAL, 2) == 0x2312
    ensures Shift8(POLYNOMIAL, 4) == 0x4624 && Shift8(POLYNOMIAL, 8) == 0x8c48
    ensures Shift8(POLYNOMIAL, 16) == 0x1081 && Shift8(POLYNOMIAL, 32) == 0x2102
    ensures Shift8(POLYNOMIAL, 64) == 0x4204 && Shift8(POLYNOMIAL, 128) == 0x8408
  {
    hide ShiftN, Shift8;
    Shift8Unfold(POLYNOMIAL, 1);
    Shift8Unfold(POLYNOMIAL, 2);
    Shift8Unfold(POLYNOMIAL, 4);
    Shift8Unfold(POLYNOMIAL, 8);
    Shift8Unfold(POLYNOMIAL, 16);
    Shift8Unfold(POLYNOMIAL, 32);
    Shift8Unfold(POLYNOMIAL, 64);
    Shift8Unfold(POLYNOMIAL, 128);
  }

  lemma BasisCombine(i: bv8)
    ensures FromBasis(i) == Combine(i, 0x1189, 0x2312, 0x4624, 0x8c48, 0x1081, 0x2102, 0x4204, 0x8408)
  {
  }

  /** Every table entry is what the bit-serial register makes of its index in eight shifts. */
  lemma TableIsShift8(i: bv8)
    ensures FcsTab(i) == Shift8(POLYNOMIAL, Byte(i))
  {
    hide FcsTab, Shift8, Combine, FromBasis;
    Basis();
    Shift8Combine(POLYNOMIAL, i);
    TableFromBasis(i);
    BasisCombine(i);
  }

  // ----- computing and checking

  /** The table-driven loop computes the bit-serial register. */
  method PppFcs(fcs: word, cp: seq<bv8>) returns (r: word)
    ensures r == FeedBytes(POLYNOMIAL, fcs, cp)
  {
    hide Feed, FcsTab, Byte, Xor, LowByte, DropByte, ByteBits;
    r := fcs;
    var i := 0;
    while i < |cp|
      invariant 0 <= i <= |cp|
      invariant FeedBytes(POLYNOMIAL, r, cp[i..]) == FeedBytes(POLYNOMIAL, fcs, cp)
    {
      FeedBytesCons(POLYNOMIAL, r, cp[i..]);
      assert cp[i..][1..] == cp[i + 1..];
      TableStep(POLYNOMIAL, r, cp[i]);
      TableIsShift8(LowByte(Xor(r, Byte(cp[i]))));
      r := Xor(DropByte(r), FcsTab(LowByte(Xor(r, Byte(cp[i])))));
      i := i + 1;
    }
    Exhausted(r, cp[i..]);
  }

  lemma Exhausted(c: word, cp: seq<bv8>)
    requires cp == []
    ensures FeedBytes(POLYNOMIAL, c, cp) == c
  {
  }

  /** The frame check sequence: the complement of the register. */
  function Fcs(buf: seq<bv8>): word {
    Xor(FeedBytes(POLYNOMIAL, PPPINITFCS, buf), 0xffff)
  }

  /** What a receiver checks. */
  predicate Accepted(buf: seq<bv8>) {
    FeedBytes(POLYNOMIAL, PPPINITFCS, buf) == PPPGOODFCS
  }

  method ComputeCrc(buf: seq<bv8>) returns (crc: word)
    ensures crc == Fcs(buf)
  {
    hide FeedBytes, Xor;
    var fcs := PppFcs(PPPINITFCS, buf);
    crc := Xor(fcs, 0xffff);
  }

  method OkCrc(buf: seq<bv8>) returns (ok: bool)
    ensures ok <==> Accepted(buf)
  {
    hide FeedBytes;
    var fcs := PppFcs(PPPINITFCS, buf);
    ok := fcs == PPPGOODFCS;
  }

  /** The sender's trailer: the check sequence, low byte first. */
  function Trailer(crc: word): seq<bv8> {
    [LowByte(crc), LowByte(DropByte(crc))]
  }

  /** The datagram `put_message_low` sends: the content with the two check bytes written behind it. */
  method BuildFrame(content: seq<bv8>) returns (temp: array<bv8>)
    ensures temp[..] == content + Trailer(Fcs(content))
  {
    hide Fcs, LowByte, DropByte;
    var len := |content|;
    temp := new bv8[len + 2];
    for i := 0 to len
      invariant temp[..i] == content[..i]
    {
      temp[i] := content[i];
    }
    assert temp[..len] == content;
    var crc := ComputeCrc(content);
    temp[len] := LowByte(crc);
    temp[len + 1] := LowByte(DropByte(crc));
  }

  // ----- acceptance, exactly

  lemma RegisterOk()
    ensures IsRegister(POLYNOMIAL, TOP) && Fits(PPPINITFCS, TOP) && Width(TOP) == 16
  {
  }

  lemma HalfWay()
    ensures Shift8(POLYNOMIAL, 0xffff) == 0x0f87
  {
    hide ShiftN, Shift8;
    Shift8Unfold(POLYNOMIAL, 0xffff);
  }

  lemma GoodResidue()
    ensures Shift8(POLYNOMIAL, Shift8(POLYNOMIAL, 0xffff)) == PPPGOODFCS
  {
    hide ShiftN, Shift8;
    HalfWay();
    Shift8Unfold(POLYNOMIAL, 0x0f87);
  }

  lemma TwoBytesFit(lo: bv8, hi: bv8)
    ensures Fits(TwoBytes(lo, hi), TOP)
  {
  }

  lemma BytesOfTwo(lo: bv8, hi: bv8)
    ensures LowByte(TwoBytes(lo, hi)) == lo && LowByte(DropByte(TwoBytes(lo, hi))) == hi
  {
  }

  lemma TwoOfBytes(crc: word)
    requires Fits(crc, TOP)
    ensures TwoBytes(LowByte(crc), LowByte(DropByte(crc))) == crc
  {
  }

  lemma TwoBytesAre(lo: bv8, hi: bv8, crc: word)
    requires Fits(crc, TOP)
    ensures TwoBytes(lo, hi) == crc <==> lo == LowByte(crc) && hi == LowByte(DropByte(crc))
  {
    hide *;
    BytesOfTwo(lo, hi);
    TwoOfBytes(crc);
  }

  /** From any register, two bytes lead to the good residue exactly when they are its complement. */
  lemma ResidueMeansTrailer(c: word, lo: bv8, hi: bv8)
    requires Fits(c, TOP)
    ensures FeedBytes(POLYNOMIAL, c, [lo, hi]) == PPPGOODFCS <==> [lo, hi] == Trailer(Xor(c, 0xffff))
  {
    hide FeedBytes, Shift8, Xor, TwoBytes, LowByte, DropByte, Fits, IsRegister;
    var w := TwoBytes(lo, hi);
    RegisterOk();
    TwoBytesFit(lo, hi);
    XorFits(TOP, c, w);
    XorFits(TOP, c, 0xffff);
    FeedTwoBytes(POLYNOMIAL, c, lo, hi);
    GoodResidue();
    if FeedBytes(POLYNOMIAL, c, [lo, hi]) == PPPGOODFCS {
      Shift8Fits(Xor(c, w));
      Shift8Fits(0xffff);
      Shift8Injective(POLYNOMIAL, TOP, Shift8(POLYNOMIAL, Xor(c, w)), Shift8(POLYNOMIAL, 0xffff));
      Shift8Injective(POLYNOMIAL, TOP, Xor(c, w), 0xffff);
    }
    ComplementWord(c, w);
    TwoBytesAre(lo, hi, Xor(c, 0xffff));
  }

  lemma Shift8Fits(c: word)
    requires Fits(c, TOP)
    ensures Fits(Shift8(POLYNOMIAL, c), TOP)
  {
    hide Fits, IsRegister, ShiftN;
    RegisterOk();
    ShiftNFits(POLYNOMIAL, TOP, c, 8);
  }

  lemma ComplementWord(c: word, w: word)
    ensures Xor(c, w) == 0xffff <==> w == Xor(c, 0xffff)
  {
    hide Xor;
    XorAssoc(c, c, w);
    XorAssoc(c, c, 0xffff);
    XorSelf(c);
    XorSelf(w);
    XorSelf(0xffff);
  }

  lemma OneByteMisses(b: bv8)
    ensures FeedBytes(POLYNOMIAL, PPPINITFCS, [b]) != PPPGOODFCS
  {
    hide Feed, ByteBits, Shift8, Xor, Byte, ShiftN, IsRegister;
    assert Bits([b]) == ByteBits(b) by { assert [b][1..] == []; }
    FeedByte(POLYNOMIAL, PPPINITFCS, b);
    RegisterOk();
    ByteFits(b);
    XorFits(TOP, 0xffff, Byte(b));
    HalfWay();
    GoodResidue();
    if Shift8(POLYNOMIAL, Xor(0xffff, Byte(b))) == PPPGOODFCS {
      Shift8Injective(POLYNOMIAL, TOP, Xor(0xffff, Byte(b)), 0x0f87);
      HighPart(b);
    }
  }

  lemma ByteFits(b: bv8)
    ensures Fits(Byte(b), TOP)
  {
  }

  lemma HighPart(b: bv8)
    ensures Xor(0xffff, Byte(b)) != 0x0f87
  {
  }

  /** A buffer is accepted exactly when it ends in the check sequence of what precedes it. */
  lemma AcceptedMeansTrailer(buf: seq<bv8>)
    ensures Accepted(buf) <==> |buf| >= 2 && buf[|buf| - 2..] == Trailer(Fcs(buf[..|buf| - 2]))
  {
    hide Feed, Xor, Trailer, IsRegister, Fits;
    if |buf| == 0 {
      Exhausted(PPPINITFCS, buf);
    } else if |buf| == 1 {
      assert buf == [buf[0]];
      OneByteMisses(buf[0]);
    } else {
      hide FeedBytes;
      var n := |buf| - 2;
      var c := FeedBytes(POLYNOMIAL, PPPINITFCS, buf[..n]);
      assert buf == buf[..n] + buf[n..] && buf[n..] == [buf[n], buf[n + 1]];
      FeedBytesConcat(POLYNOMIAL, PPPINITFCS, buf[..n], buf[n..]);
      RegisterFits(buf[..n]);
      ResidueMeansTrailer(c, buf[n], buf[n + 1]);
    }
  }

  lemma RegisterFits(buf: seq<bv8>)
    ensures Fits(FeedBytes(POLYNOMIAL, PPPINITFCS, buf), TOP)
  {
    hide Feed, Bits, IsRegister, Fits;
    RegisterOk();
    FeedFits(POLYNOMIAL, TOP, PPPINITFCS, Bits(buf));
  }

  /** Whatever the sender frames, the receiver accepts. */
  lemma SentFrameAccepted(content: seq<bv8>)
    ensures Accepted(content + Trailer(Fcs(content)))
  {
    hide Accepted, Fcs;
    var t := Trailer(Fcs(content));
    var buf := content + t;
    assert buf[..|buf| - 2] == content && buf[|buf| - 2..] == t;
    AcceptedMeansTrailer(buf);
  }

  // ----- error detection

  /** No burst of up to sixteen consecutive bits turns an accepted frame into another accepted one. */
  lemma BurstRejected(f: seq<bv8>, g: seq<bv8>, at: nat, n: nat)
    requires DifferWithin(Bits(f), Bits(g), at, n) && n <= 16 && Accepted(f)
    ensures !Accepted(g)
  {
    hide Feed, Bits, IsRegister, Fits, DifferWithin;
    RegisterOk();
    BurstChangesRegister(POLYNOMIAL, TOP, PPPINITFCS, Bits(f), Bits(g), at, n);
  }

  /** In particular, two frames that differ only within two adjacent bytes are never both accepted. */
  lemma AdjacentBytesRejected(f: seq<bv8>, g: seq<bv8>, at: nat)
    requires BytesDifferWithin(f, g, at, 2) && Accepted(f)
    ensures !Accepted(g)
  {
    hide Accepted, Bits, BytesDifferWithin, DifferWithin;
    ByteBurstIsBitBurst(f, g, at, 2);
    BurstRejected(f, g, 8 * at, 16);
  }

  // ----- the start value

  /** One byte more, from a known register. */
  lemma Fed(c: word, b: bv8, next: word, bytes: seq<bv8>)
    requires bytes != [] && bytes[0] == b && EightShifts(POLYNOMIAL, Xor(c, Byte(b))) == next
    ensures FeedBytes(POLYNOMIAL, c, bytes) == FeedBytes(POLYNOMIAL, next, bytes[1..])
  {
    hide Feed, ByteBits, Shift, Xor, Byte, Bits, Shift8;
    FeedBytesCons(POLYNOMIAL, c, bytes);
    FeedByte(POLYNOMIAL, c, b);
    Shift8Unfold(POLYNOMIAL, Xor(c, Byte(b)));
  }

  /** The check value of the digits from 1 to 9. */
  lemma CheckValue()
    ensures Fcs([0x31, 0x32, 0x33, 0x34, 0x35, 0x36, 0x37, 0x38, 0x39]) == 0x906e
  {
    hide FeedBytes;
    var digits: seq<bv8> := [0x31, 0x32, 0x33, 0x34, 0x35, 0x36, 0x37, 0x38, 0x39];
    assert digits[0..] == digits;
    Fed(0xffff, 0x31, 0x2f8d, digits[0..]);
    Fed(0x2f8d, 0x32, 0x4d53, digits[1..]);
    Fed(0x4d53, 0x33, 0x634b, digits[2..]);
    Fed(0x634b, 0x34, 0x8b13, digits[3..]);
    Fed(0x8b13, 0x35, 0x44bf, digits[4..]);
    Fed(0x44bf, 0x36, 0x198d, digits[5..]);
    Fed(0x198d, 0x37, 0x1ac8, digits[6..]);
    Fed(0x1ac8, 0x38, 0xf795, digits[7..]);
    Fed(0xf795, 0x39, 0x6f91, digits[8..]);
    Exhausted(0x6f91, digits[9..]);
  }

  /** A byte lost or gained in front is noticed even if it is zero: an accepted frame is not accepted with
      a zero byte before it. */
  lemma ZeroInFrontRejected(f: seq<bv8>)
    requires Accepted(f)
    ensures !Accepted([0] + f)
  {
    hide Feed, Bits, IsRegister, Fits, EightShifts;
    RegisterOk();
    assert EightShifts(POLYNOMIAL, Xor(0xffff, Byte(0))) == 0x0f87 by { ZeroByte(); }
    assert ([0] + f)[1..] == f;
    Fed(0xffff, 0, 0x0f87, [0] + f);
    if FeedBytes(POLYNOMIAL, 0x0f87, f) == FeedBytes(POLYNOMIAL, 0xffff, f) {
      ZeroByteFits();
      FeedInjective(POLYNOMIAL, TOP, 0x0f87, 0xffff, Bits(f));
    }
  }

  lemma ZeroByte()
    ensures EightShifts(POLYNOMIAL, Xor(0xffff, Byte(0))) == 0x0f87
  {
  }

  lemma ZeroByteFits()
    ensures Fits(0x0f87, TOP) && Fits(0xffff, TOP)
  {
  }
}
