/** The 32-bit checksum (ANSI X3.66) that identifies a packet to the duplicate filter. */
module Crc32 {
  import opened ShiftRegister

  const POLYNOMIAL: word := 0xedb8_8320
  const TOP: word := 0x8000_0000

  // ----- the lookup table, sixteen rows of sixteen entries

  function Row0(j: bv8): word {
    match j
    case 0x0 => 0x00000000 case 0x1 => 0x77073096 case 0x2 => 0xee0e612c case 0x3 => 0x990951ba
    case 0x4 => 0x076dc419 case 0x5 => 0x706af48f case 0x6 => 0xe963a535 case 0x7 => 0x9e6495a3
    case 0x8 => 0x0edb8832 case 0x9 => 0x79dcb8a4 case 0xa => 0xe0d5e91e case 0xb => 0x97d2d988
    case 0xc => 0x09b64c2b case 0xd => 0x7eb17cbd case 0xe => 0xe7b82d07 case _ => 0x90bf1d91
  }

  function Row1(j: bv8): word {
    match j
    case 0x0 => 0x1db71064 case 0x1 => 0x6ab020f2 case 0x2 => 0xf3b97148 case 0x3 => 0x84be41de
    case 0x4 => 0x1adad47d case 0x5 => 0x6ddde4eb case 0x6 => 0xf4d4b551 case 0x7 => 0x83d385c7
    case 0x8 => 0x136c9856 case 0x9 => 0x646ba8c0 case 0xa => 0xfd62f97a case 0xb => 0x8a65c9ec
    case 0xc => 0x14015c4f case 0xd => 0x63066cd9 case 0xe => 0xfa0f3d63 case _ => 0x8d080df5
  }

  function Row2(j: bv8): word {
    match j
    case 0x0 => 0x3b6e20c8 case 0x1 => 0x4c69105e case 0x2 => 0xd56041e4 case 0x3 => 0xa2677172
    case 0x4 => 0x3c03e4d1 case 0x5 => 0x4b04d447 case 0x6 => 0xd20d85fd case 0x7 => 0xa50ab56b
    case 0x8 => 0x35b5a8fa case 0x9 => 0x42b2986c case 0xa => 0xdbbbc9d6 case 0xb => 0xacbcf940
    case 0xc => 0x32d86ce3 case 0xd => 0x45df5c75 case 0xe => 0xdcd60dcf case _ => 0xabd13d59
  }

  function Row3(j: bv8): word {
    match j
    case 0x0 => 0x26d930ac case 0x1 => 0x51de003a case 0x2 => 0xc8d75180 case 0x3 => 0xbfd06116
    case 0x4 => 0x21b4f4b5 case 0x5 => 0x56b3c423 case 0x6 => 0xcfba9599 case 0x7 => 0xb8bda50f
    case 0x8 => 0x2802b89e case 0x9 => 0x5f058808 case 0xa => 0xc60cd9b2 case 0xb => 0xb10be924
    case 0xc => 0x2f6f7c87 case 0xd => 0x58684c11 case 0xe => 0xc1611dab case _ => 0xb6662d3d
  }

  function Row4(j: bv8): word {
    match j
    case 0x0 => 0x76dc4190 case 0x1 => 0x01db7106 case 0x2 => 0x98d220bc case 0x3 => 0xefd5102a
    case 0x4 => 0x71b18589 case 0x5 => 0x06b6b51f case 0x6 => 0x9fbfe4a5 case 0x7 => 0xe8b8d433
    case 0x8 => 0x7807c9a2 case 0x9 => 0x0f00f934 case 0xa => 0x9609a88e case 0xb => 0xe10e9818
    case 0xc => 0x7f6a0dbb case 0xd => 0x086d3d2d case 0xe => 0x91646c97 case _ => 0xe6635c01
  }

  function Row5(j: bv8): word {
    match j
    case 0x0 => 0x6b6b51f4 case 0x1 => 0x1c6c6162 case 0x2 => 0x856530d8 case 0x3 => 0xf262004e
    case 0x4 => 0x6c0695ed case 0x5 => 0x1b01a57b case 0x6 => 0x8208f4c1 case 0x7 => 0xf50fc457
    case 0x8 => 0x65b0d9c6 case 0x9 => 0x12b7e950 case 0xa => 0x8bbeb8ea case 0xb => 0xfcb9887c
    case 0xc => 0x62dd1ddf case 0xd => 0x15da2d49 case 0xe => 0x8cd37cf3 case _ => 0xfbd44c65
  }

  function Row6(j: bv8): word {
    match j
    case 0x0 => 0x4db26158 case 0x1 => 0x3ab551ce case 0x2 => 0xa3bc0074 case 0x3 => 0xd4bb30e2
    case 0x4 => 0x4adfa541 case 0x5 => 0x3dd895d7 case 0x6 => 0xa4d1c46d case 0x7 => 0xd3d6f4fb
    case 0x8 => 0x4369e96a case 0x9 => 0x346ed9fc case 0xa => 0xad678846 case 0xb => 0xda60b8d0
    case 0xc => 0x44042d73 case 0xd => 0x33031de5 case 0xe => 0xaa0a4c5f case _ => 0xdd0d7cc9
  }

  function Row7(j: bv8): word {
    match j
    case 0x0 => 0x5005713c case 0x1 => 0x270241aa case 0x2 => 0xbe0b1010 case 0x3 => 0xc90c2086
    case 0x4 => 0x5768b525 case 0x5 => 0x206f85b3 case 0x6 => 0xb966d409 case 0x7 => 0xce61e49f
    case 0x8 => 0x5edef90e case 0x9 => 0x29d9c998 case 0xa => 0xb0d09822 case 0xb => 0xc7d7a8b4
    case 0xc => 0x59b33d17 case 0xd => 0x2eb40d81 case 0xe => 0xb7bd5c3b case _ => 0xc0ba6cad
  }

  function Row8(j: bv8): word {
    match j
    case 0x0 => 0xedb88320 case 0x1 => 0x9abfb3b6 case 0x2 => 0x03b6e20c case 0x3 => 0x74b1d29a
    case 0x4 => 0xead54739 case 0x5 => 0x9dd277af case 0x6 => 0x04db2615 case 0x7 => 0x73dc1683
    case 0x8 => 0xe3630b12 case 0x9 => 0x94643b84 case 0xa => 0x0d6d6a3e case 0xb => 0x7a6a5aa8
    case 0xc => 0xe40ecf0b case 0xd => 0x9309ff9d case 0xe => 0x0a00ae27 case _ => 0x7d079eb1
  }

  function Row9(j: bv8): word {
    match j
    case 0x0 => 0xf00f9344 case 0x1 => 0x8708a3d2 case 0x2 => 0x1e01f268 case 0x3 => 0x6906c2fe
    case 0x4 => 0xf762575d case 0x5 => 0x806567cb case 0x6 => 0x196c3671 case 0x7 => 0x6e6b06e7
    case 0x8 => 0xfed41b76 case 0x9 => 0x89d32be0 case 0xa => 0x10da7a5a case 0xb => 0x67dd4acc
    case 0xc => 0xf9b9df6f case 0xd => 0x8ebeeff9 case 0xe => 0x17b7be43 case _ => 0x60b08ed5
  }

  function RowA(j: bv8): word {
    match j
    case 0x0 => 0xd6d6a3e8 case 0x1 => 0xa1d1937e case 0x2 => 0x38d8c2c4 case 0x3 => 0x4fdff252
    case 0x4 => 0xd1bb67f1 case 0x5 => 0xa6bc5767 case 0x6 => 0x3fb506dd case 0x7 => 0x48b2364b
    case 0x8 => 0xd80d2bda case 0x9 => 0xaf0a1b4c case 0xa => 0x36034af6 case 0xb => 0x41047a60
    case 0xc => 0xdf60efc3 case 0xd => 0xa867df55 case 0xe => 0x316e8eef case _ => 0x4669be79
  }

  function RowB(j: bv8): word {
    match j
    case 0x0 => 0xcb61b38c case 0x1 => 0xbc66831a case 0x2 => 0x256fd2a0 case 0x3 => 0x5268e236
    case 0x4 => 0xcc0c7795 case 0x5 => 0xbb0b4703 case 0x6 => 0x220216b9 case 0x7 => 0x5505262f
    case 0x8 => 0xc5ba3bbe case 0x9 => 0xb2bd0b28 case 0xa => 0x2bb45a92 case 0xb => 0x5cb36a04
    case 0xc => 0xc2d7ffa7 case 0xd => 0xb5d0cf31 case 0xe => 0x2cd99e8b case _ => 0x5bdeae1d
  }

  function RowC(j: bv8): word {
    match j
    case 0x0 => 0x9b64c2b0 case 0x1 => 0xec63f226 case 0x2 => 0x756aa39c case 0x3 => 0x026d930a
    case 0x4 => 0x9c0906a9 case 0x5 => 0xeb0e363f case 0x6 => 0x72076785 case 0x7 => 0x05005713
    case 0x8 => 0x95bf4a82 case 0x9 => 0xe2b87a14 case 0xa => 0x7bb12bae case 0xb => 0x0cb61b38
    case 0xc => 0x92d28e9b case 0xd => 0xe5d5be0d case 0xe => 0x7cdcefb7 case _ => 0x0bdbdf21
  }

  function RowD(j: bv8): word {
    match j
    case 0x0 => 0x86d3d2d4 case 0x1 => 0xf1d4e242 case 0x2 => 0x68ddb3f8 case 0x3 => 0x1fda836e
    case 0x4 => 0x81be16cd case 0x5 => 0xf6b9265b case 0x6 => 0x6fb077e1 case 0x7 => 0x18b74777
    case 0x8 => 0x88085ae6 case 0x9 => 0xff0f6a70 case 0xa => 0x66063bca case 0xb => 0x11010b5c
    case 0xc => 0x8f659eff case 0xd => 0xf862ae69 case 0xe => 0x616bffd3 case _ => 0x166ccf45
  }

  function RowE(j: bv8): word {
    match j
    case 0x0 => 0xa00ae278 case 0x1 => 0xd70dd2ee case 0x2 => 0x4e048354 case 0x3 => 0x3903b3c2
    case 0x4 => 0xa7672661 case 0x5 => 0xd06016f7 case 0x6 => 0x4969474d case 0x7 => 0x3e6e77db
    case 0x8 => 0xaed16a4a case 0x9 => 0xd9d65adc case 0xa => 0x40df0b66 case 0xb => 0x37d83bf0
    case 0xc => 0xa9bcae53 case 0xd => 0xdebb9ec5 case 0xe => 0x47b2cf7f case _ => 0x30b5ffe9
  }

  function RowF(j: bv8): word {
    match j
    case 0x0 => 0xbdbdf21c case 0x1 => 0xcabac28a case 0x2 => 0x53b39330 case 0x3 => 0x24b4a3a6
    case 0x4 => 0xbad03605 case 0x5 => 0xcdd70693 case 0x6 => 0x54de5729 case 0x7 => 0x23d967bf
    case 0x8 => 0xb3667a2e case 0x9 => 0xc4614ab8 case 0xa => 0x5d681b02 case 0xb => 0x2a6f2b94
    case 0xc => 0xb40bbe37 case 0xd => 0xc30c8ea1 case 0xe => 0x5a05df1b case _ => 0x2d02ef8d
  }

  function Entry(r: bv8, j: bv8): word {
    match r
    case 0x0 => Row0(j)
    case 0x1 => Row1(j)
    case 0x2 => Row2(j)
    case 0x3 => Row3(j)
    case 0x4 => Row4(j)
    case 0x5 => Row5(j)
    case 0x6 => Row6(j)
    case 0x7 => Row7(j)
    case 0x8 => Row8(j)
    case 0x9 => Row9(j)
    case 0xa => RowA(j)
    case 0xb => RowB(j)
    case 0xc => RowC(j)
    case 0xd => RowD(j)
    case 0xe => RowE(j)
    case _ => RowF(j)
  }

  function Crc32Tab(i: bv8): word {
    Entry(i >> 4, i & 15)
  }

  // ----- every entry is eight shifts of its index

  function FromBasis(i: bv8): word {
    (if i & 1 != 0 then 0x77073096 else 0) ^ (if i & 2 != 0 then 0xee0e612c else 0)
    ^ (if i & 4 != 0 then 0x076dc419 else 0) ^ (if i & 8 != 0 then 0x0edb8832 else 0)
    ^ (if i & 16 != 0 then 0x1db71064 else 0) ^ (if i & 32 != 0 then 0x3b6e20c8 else 0)
    ^ (if i & 64 != 0 then 0x76dc4190 else 0) ^ (if i & 128 != 0 then 0xedb88320 else 0)
  }

  lemma Row0Basis(j: bv8)
    requires j < 16
    ensures Row0(j) == FromBasis(0x00 | j)
  {
    match j {
      case 0x0 => case 0x1 => case 0x2 => case 0x3 => case 0x4 => case 0x5 => case 0x6 => case 0x7 =>
      case 0x8 => case 0x9 => case 0xa => case 0xb => case 0xc => case 0xd => case 0xe => case _ =>
    }
  }

  lemma Row1Basis(j: bv8)
    requires j < 16
    ensures Row1(j) == FromBasis(0x10 | j)
  {
    match j {
      case 0x0 => case 0x1 => case 0x2 => case 0x3 => case 0x4 => case 0x5 => case 0x6 => case 0x7 =>
      case 0x8 => case 0x9 => case 0xa => case 0xb => case 0xc => case 0xd => case 0xe => case _ =>
    }
  }

  lemma Row2Basis(j: bv8)
    requires j < 16
    ensures Row2(j) == FromBasis(0x20 | j)
  {
    match j {
      case 0x0 => case 0x1 => case 0x2 => case 0x3 => case 0x4 => case 0x5 => case 0x6 => case 0x7 =>
      case 0x8 => case 0x9 => case 0xa => case 0xb => case 0xc => case 0xd => case 0xe => case _ =>
    }
  }

  lemma Row3Basis(j: bv8)
    requires j < 16
    ensures Row3(j) == FromBasis(0x30 | j)
  {
    match j {
      case 0x0 => case 0x1 => case 0x2 => case 0x3 => case 0x4 => case 0x5 => case 0x6 => case 0x7 =>
      case 0x8 => case 0x9 => case 0xa => case 0xb => case 0xc => case 0xd => case 0xe => case _ =>
    }
  }

  lemma Row4Basis(j: bv8)
    requires j < 16
    ensures Row4(j) == FromBasis(0x40 | j)
  {
    match j {
      case 0x0 => case 0x1 => case 0x2 => case 0x3 => case 0x4 => case 0x5 => case 0x6 => case 0x7 =>
      case 0x8 => case 0x9 => case 0xa => case 0xb => case 0xc => case 0xd => case 0xe => case _ =>
    }
  }

  lemma Row5Basis(j: bv8)
    requires j < 16
    ensures Row5(j) == FromBasis(0x50 | j)
  {
    match j {
      case 0x0 => case 0x1 => case 0x2 => case 0x3 => case 0x4 => case 0x5 => case 0x6 => case 0x7 =>
      case 0x8 => case 0x9 => case 0xa => case 0xb => case 0xc => case 0xd => case 0xe => case _ =>
    }
  }

  lemma Row6Basis(j: bv8)
    requires j < 16
    ensures Row6(j) == FromBasis(0x60 | j)
  {
    match j {
      case 0x0 => case 0x1 => case 0x2 => case 0x3 => case 0x4 => case 0x5 => case 0x6 => case 0x7 =>
      case 0x8 => case 0x9 => case 0xa => case 0xb => case 0xc => case 0xd => case 0xe => case _ =>
    }
  }

  lemma Row7Basis(j: bv8)
    requires j < 16
    ensures Row7(j) == FromBasis(0x70 | j)
  {
    match j {
      case 0x0 => case 0x1 => case 0x2 => case 0x3 => case 0x4 => case 0x5 => case 0x6 => case 0x7 =>
      case 0x8 => case 0x9 => case 0xa => case 0xb => case 0xc => case 0xd => case 0xe => case _ =>
    }
  }

  lemma Row8Basis(j: bv8)
    requires j < 16
    ensures Row8(j) == FromBasis(0x80 | j)
  {
    match j {
      case 0x0 => case 0x1 => case 0x2 => case 0x3 => case 0x4 => case 0x5 => case 0x6 => case 0x7 =>
      case 0x8 => case 0x9 => case 0xa => case 0xb => case 0xc => case 0xd => case 0xe => case _ =>
    }
  }

  lemma Row9Basis(j: bv8)
    requires j < 16
    ensures Row9(j) == FromBasis(0x90 | j)
  {
    match j {
      case 0x0 => case 0x1 => case 0x2 => case 0x3 => case 0x4 => case 0x5 => case 0x6 => case 0x7 =>
      case 0x8 => case 0x9 => case 0xa => case 0xb => case 0xc => case 0xd => case 0xe => case _ =>
    }
  }

  lemma RowABasis(j: bv8)
    requires j < 16
    ensures RowA(j) == FromBasis(0xa0 | j)
  {
    match j {
      case 0x0 => case 0x1 => case 0x2 => case 0x3 => case 0x4 => case 0x5 => case 0x6 => case 0x7 =>
      case 0x8 => case 0x9 => case 0xa => case 0xb => case 0xc => case 0xd => case 0xe => case _ =>
    }
  }

  lemma RowBBasis(j: bv8)
    requires j < 16
    ensures RowB(j) == FromBasis(0xb0 | j)
  {
    match j {
      case 0x0 => case 0x1 => case 0x2 => case 0x3 => case 0x4 => case 0x5 => case 0x6 => case 0x7 =>
      case 0x8 => case 0x9 => case 0xa => case 0xb => case 0xc => case 0xd => case 0xe => case _ =>
    }
  }

  lemma RowCBasis(j: bv8)
    requires j < 16
    ensures RowC(j) == FromBasis(0xc0 | j)
  {
    match j {
      case 0x0 => case 0x1 => case 0x2 => case 0x3 => case 0x4 => case 0x5 => case 0x6 => case 0x7 =>
      case 0x8 => case 0x9 => case 0xa => case 0xb => case 0xc => case 0xd => case 0xe => case _ =>
    }
  }

  lemma RowDBasis(j: bv8)
    requires j < 16
    ensures RowD(j) == FromBasis(0xd0 | j)
  {
    match j {
      case 0x0 => case 0x1 => case 0x2 => case 0x3 => case 0x4 => case 0x5 => case 0x6 => case 0x7 =>
      case 0x8 => case 0x9 => case 0xa => case 0xb => case 0xc => case 0xd => case 0xe => case _ =>
    }
  }

  lemma RowEBasis(j: bv8)
    requires j < 16
    ensures RowE(j) == FromBasis(0xe0 | j)
  {
    match j {
      case 0x0 => case 0x1 => case 0x2 => case 0x3 => case 0x4 => case 0x5 => case 0x6 => case 0x7 =>
      case 0x8 => case 0x9 => case 0xa => case 0xb => case 0xc => case 0xd => case 0xe => case _ =>
    }
  }

  lemma RowFBasis(j: bv8)
    requires j < 16
    ensures RowF(j) == FromBasis(0xf0 | j)
  {
    match j {
      case 0x0 => case 0x1 => case 0x2 => case 0x3 => case 0x4 => case 0x5 => case 0x6 => case 0x7 =>
      case 0x8 => case 0x9 => case 0xa => case 0xb => case 0xc => case 0xd => case 0xe => case _ =>
    }
  }

  lemma EntryBasis(r: bv8, j: bv8)
    requires r < 16 && j < 16
    ensures Entry(r, j) == FromBasis((r << 4) | j)
  {
    hide FromBasis, Row0, Row1, Row2, Row3, Row4, Row5, Row6, Row7, Row8, Row9, RowA, RowB, RowC, RowD, RowE, RowF;
    match r
    case 0x0 => Row0Basis(j);
    case 0x1 => Row1Basis(j);
    case 0x2 => Row2Basis(j);
    case 0x3 => Row3Basis(j);
    case 0x4 => Row4Basis(j);
    case 0x5 => Row5Basis(j);
    case 0x6 => Row6Basis(j);
    case 0x7 => Row7Basis(j);
    case 0x8 => Row8Basis(j);
    case 0x9 => Row9Basis(j);
    case 0xa => RowABasis(j);
    case 0xb => RowBBasis(j);
    case 0xc => RowCBasis(j);
    case 0xd => RowDBasis(j);
    case 0xe => RowEBasis(j);
    case _ => RowFBasis(j);
  }

  lemma Nibbles(i: bv8)
    ensures i >> 4 < 16 && i & 15 < 16 && ((i >> 4) << 4) | (i & 15) == i
  {
  }

  lemma TableFromBasis(i: bv8)
    ensures Crc32Tab(i) == FromBasis(i)
  {
    hide FromBasis, Entry;
    Nibbles(i);
    EntryBasis(i >> 4, i & 15);
  }

  lemma Basis()
    ensures Shift8(POLYNOMIAL, 1) == 0x77073096 && Shift8(POLYNOMIAL, 2) == 0xee0e612c
    ensures Shift8(POLYNOMIAL, 4) == 0x076dc419 && Shift8(POLYNOMIAL, 8) == 0x0edb8832
    ensures Shift8(POLYNOMIAL, 16) == 0x1db71064 && Shift8(POLYNOMIAL, 32) == 0x3b6e20c8
    ensures Shift8(POLYNOMIAL, 64) == 0x76dc4190 && Shift8(POLYNOMIAL, 128) == 0xedb88320
  {
    hide ShiftN, Shift8;
    Shift8Unfold(POLYNOMIAL, 1);
    Shift8Unfold(POLYNOMIAL, 2);
    Shift8Unfold(POLYNOMIAL, 4);
    Shift8Unfold(POLYNOMIAL, 8);
    Shift8Unfold(POLYNOMIAL, 16);
    Shift8Unfold(POLYNOMIAL, 32);
    Shift8Unfold(POLYNOMIAL, 64);
    Shift8Unfold(POLYNOMIAL, 128);
  }

  lemma BasisCombine(i: bv8)
    ensures FromBasis(i) == Combine(i, 0x77073096, 0xee0e612c, 0x076dc419, 0x0edb8832,
                                    0x1db71064, 0x3b6e20c8, 0x76dc4190, 0xedb88320)
  {
  }

  /** Every table entry is what the bit-serial register makes of its index in eight shifts. */
  lemma TableIsShift8(i: bv8)
    ensures Crc32Tab(i) == Shift8(POLYNOMIAL, Byte(i))
  {
    hide Crc32Tab, Shift8, Combine, FromBasis;
    Basis();
    Shift8Combine(POLYNOMIAL, i);
    TableFromBasis(i);
    BasisCombine(i);
  }

  // ----- the packet hash

  /** One table step per byte, low byte of the register first out. */
  function UpdateCrc32(ch: bv8, crc: word): word {
    Xor(Crc32Tab(LowByte(Xor(crc, Byte(ch)))), DropByte(crc))
  }

  lemma UpdateIsSerial(ch: bv8, crc: word)
    ensures UpdateCrc32(ch, crc) == Feed(POLYNOMIAL, crc, ByteBits(ch))
  {
    hide Feed, Crc32Tab, Byte, Xor, LowByte, DropByte, ByteBits;
    var i := LowByte(Xor(crc, Byte(ch)));
    TableStep(POLYNOMIAL, crc, ch);
    TableIsShift8(i);
    XorComm(Crc32Tab(i), DropByte(crc));
  }

  function Complement(w: word): word {
    w ^ 0xffff_ffff
  }

  /** The hash: the complement of the bit-serial register after the whole buffer. */
  function Crc(buf: seq<bv8>): word {
    Complement(FeedBytes(POLYNOMIAL, 0xffff_ffff, buf))
  }

  method Crc32Buf(buf: seq<bv8>) returns (crc: word)
    ensures crc == Crc(buf)
  {
    hide Feed, UpdateCrc32, ByteBits;
    var old32: word := 0xffff_ffff;
    var i := 0;
    while i < |buf|
      invariant 0 <= i <= |buf|
      invariant FeedBytes(POLYNOMIAL, old32, buf[i..]) == FeedBytes(POLYNOMIAL, 0xffff_ffff, buf)
    {
      FeedBytesCons(POLYNOMIAL, old32, buf[i..]);
      assert buf[i..][1..] == buf[i + 1..];
      UpdateIsSerial(buf[i], old32);
      old32 := UpdateCrc32(buf[i], old32);
      i := i + 1;
    }
    Exhausted(old32, buf[i..]);
    crc := Complement(old32);
  }

  lemma Exhausted(c: word, buf: seq<bv8>)
    requires buf == []
    ensures FeedBytes(POLYNOMIAL, c, buf) == c
  {
  }

  lemma RegisterOk()
    ensures IsRegister(POLYNOMIAL, TOP) && Fits(0xffff_ffff, TOP) && Width(TOP) == 32
  {
  }

  lemma ComplementInjective(a: word, b: word)
    requires Complement(a) == Complement(b)
    ensures a == b
  {
    XorCancel(a, b, 0xffff_ffff);
  }

  /** Two packets that differ only within 32 consecutive bits never share a hash. */
  lemma BurstChangesHash(f: seq<bv8>, g: seq<bv8>, at: nat, n: nat)
    requires DifferWithin(Bits(f), Bits(g), at, n) && n <= 32
    ensures Crc(f) != Crc(g)
  {
    hide Feed, Bits, IsRegister, Fits, DifferWithin, Complement;
    RegisterOk();
    var a, b := FeedBytes(POLYNOMIAL, 0xffff_ffff, f), FeedBytes(POLYNOMIAL, 0xffff_ffff, g);
    BurstChangesRegister(POLYNOMIAL, TOP, 0xffff_ffff, Bits(f), Bits(g), at, n);
    if Complement(a) == Complement(b) {
      ComplementInjective(a, b);
    }
  }

  lemma FourBytesChangeHash(f: seq<bv8>, g: seq<bv8>, at: nat, n: nat)
    requires n <= 4 && BytesDifferWithin(f, g, at, n)
    ensures Crc(f) != Crc(g)
  {
    hide Crc, Bits, BytesDifferWithin, DifferWithin;
    ByteBurstIsBitBurst(f, g, at, n);
    BurstChangesHash(f, g, 8 * at, 8 * n);
  }

  // ----- the start value

  /** One byte more, from a known register. */
  lemma Fed(c: word, b: bv8, next: word, bytes: seq<bv8>)
    requires bytes != [] && bytes[0] == b && EightShifts(POLYNOMIAL, Xor(c, Byte(b))) == next
    ensures FeedBytes(POLYNOMIAL, c, bytes) == FeedBytes(POLYNOMIAL, next, bytes[1..])
  {
    hide Feed, ByteBits, Shift, Xor, Byte, Bits, Shift8;
    FeedBytesCons(POLYNOMIAL, c, bytes);
    FeedByte(POLYNOMIAL, c, b);
    Shift8Unfold(POLYNOMIAL, Xor(c, Byte(b)));
  }

  /** The check value of the digits from 1 to 9. */
  lemma CheckValue()
    ensures Crc([0x31, 0x32, 0x33, 0x34, 0x35, 0x36, 0x37, 0x38, 0x39]) == 0xcbf4_3926
  {
    hide FeedBytes;
    var digits: seq<bv8> := [0x31, 0x32, 0x33, 0x34, 0x35, 0x36, 0x37, 0x38, 0x39];
    assert digits[0..] == digits;
    Fed(0xffff_ffff, 0x31, 0x7c23_1048, digits[0..]);
    Fed(0x7c23_1048, 0x32, 0xb0ac_bb32, digits[1..]);
    Fed(0xb0ac_bb32, 0x33, 0x77b7_9c2d, digits[2..]);
    Fed(0x77b7_9c2d, 0x34, 0x641c_1f5c, digits[3..]);
    Fed(0x641c_1f5c, 0x35, 0x340a_c5e3, digits[4..]);
    Fed(0x340a_c5e3, 0x36, 0xf68d_2c9e, digits[5..]);
    Fed(0xf68d_2c9e, 0x37, 0xaffc_9660, digits[6..]);
    Fed(0xaffc_9660, 0x38, 0x651f_2550, digits[7..]);
    Fed(0x651f_2550, 0x39, 0x340b_c6d9, digits[8..]);
    Exhausted(0x340b_c6d9, digits[9..]);
  }

  /** A packet with a zero byte in front has another hash. */
  lemma ZeroInFrontChangesHash(f: seq<bv8>)
    ensures Crc([0] + f) != Crc(f)
  {
    hide Feed, Bits, IsRegister, Fits, EightShifts, Complement;
    RegisterOk();
    assert EightShifts(POLYNOMIAL, Xor(0xffff_ffff, Byte(0))) == 0x2dfd_1072 by { ZeroByte(); }
    assert ([0] + f)[1..] == f;
    Fed(0xffff_ffff, 0, 0x2dfd_1072, [0] + f);
    if Crc([0] + f) == Crc(f) {
      ComplementInjective(FeedBytes(POLYNOMIAL, 0x2dfd_1072, f), FeedBytes(POLYNOMIAL, 0xffff_ffff, f));
      ZeroByteFits();
      FeedInjective(POLYNOMIAL, TOP, 0x2dfd_1072, 0xffff_ffff, Bits(f));
    }
  }

  lemma ZeroByte()
    ensures EightShifts(POLYNOMIAL, Xor(0xffff_ffff, Byte(0))) == 0x2dfd_1072
  {
  }

  lemma ZeroByteFits()
    ensures Fits(0x2dfd_1072, TOP) && Fits(0xffff_ffff, TOP)
  {
  }
}
