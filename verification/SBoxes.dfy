/** The two substitution tables of aes.c, sixteen entries to a row, proved to be the
    substitution of section 5.1.1 of FIPS 197 (inversion in GF(2^8) followed by an affine
    map) and its inverse. */
module SBoxes {
  import opened Field

  /** The entry of a table row that the low half of x selects. */
  function Row(x: byte, r0: byte, r1: byte, r2: byte, r3: byte, r4: byte, r5: byte, r6: byte, r7: byte,
               r8: byte, r9: byte, ra: byte, rb: byte, rc: byte, rd: byte, re: byte, rf: byte): byte
  {
    if x & 0x8 == 0 then
      if x & 0x4 == 0 then
        if x & 0x2 == 0 then if x & 0x1 == 0 then r0 else r1
        else if x & 0x1 == 0 then r2 else r3
      else
        if x & 0x2 == 0 then if x & 0x1 == 0 then r4 else r5
        else if x & 0x1 == 0 then r6 else r7
    else
      if x & 0x4 == 0 then
        if x & 0x2 == 0 then if x & 0x1 == 0 then r8 else r9
        else if x & 0x1 == 0 then ra else rb
      else
        if x & 0x2 == 0 then if x & 0x1 == 0 then rc else rd
        else if x & 0x1 == 0 then re else rf
  }

  /** The table `sbox`; the high half of x selects the row. */
  function SBox(x: byte): byte {
    if x & 0x80 == 0 then
      if x & 0x40 == 0 then
        if x & 0x20 == 0 then
          if x & 0x10 == 0 then
            Row(x, 0x63, 0x7c, 0x77, 0x7b, 0xf2, 0x6b, 0x6f, 0xc5, 0x30, 0x01, 0x67, 0x2b, 0xfe, 0xd7, 0xab, 0x76)
          else
            Row(x, 0xca, 0x82, 0xc9, 0x7d, 0xfa, 0x59, 0x47, 0xf0, 0xad, 0xd4, 0xa2, 0xaf, 0x9c, 0xa4, 0x72, 0xc0)
        else
          if x & 0x10 == 0 then
            Row(x, 0xb7, 0xfd, 0x93, 0x26, 0x36, 0x3f, 0xf7, 0xcc, 0x34, 0xa5, 0xe5, 0xf1, 0x71, 0xd8, 0x31, 0x15)
          else
            Row(x, 0x04, 0xc7, 0x23, 0xc3, 0x18, 0x96, 0x05, 0x9a, 0x07, 0x12, 0x80, 0xe2, 0xeb, 0x27, 0xb2, 0x75)
      else
        if x & 0x20 == 0 then
          if x & 0x10 == 0 then
            Row(x, 0x09, 0x83, 0x2c, 0x1a, 0x1b, 0x6e, 0x5a, 0xa0, 0x52, 0x3b, 0xd6, 0xb3, 0x29, 0xe3, 0x2f, 0x84)
          else
            Row(x, 0x53, 0xd1, 0x00, 0xed, 0x20, 0xfc, 0xb1, 0x5b, 0x6a, 0xcb, 0xbe, 0x39, 0x4a, 0x4c, 0x58, 0xcf)
        else
          if x & 0x10 == 0 then
            Row(x, 0xd0, 0xef, 0xaa, 0xfb, 0x43, 0x4d, 0x33, 0x85, 0x45, 0xf9, 0x02, 0x7f, 0x50, 0x3c, 0x9f, 0xa8)
          else
            Row(x, 0x51, 0xa3, 0x40, 0x8f, 0x92, 0x9d, 0x38, 0xf5, 0xbc, 0xb6, 0xda, 0x21, 0x10, 0xff, 0xf3, 0xd2)
    else
      if x & 0x40 == 0 then
        if x & 0x20 == 0 then
          if x & 0x10 == 0 then
            Row(x, 0xcd, 0x0c, 0x13, 0xec, 0x5f, 0x97, 0x44, 0x17, 0xc4, 0xa7, 0x7e, 0x3d, 0x64, 0x5d, 0x19, 0x73)
          else
            Row(x, 0x60, 0x81, 0x4f, 0xdc, 0x22, 0x2a, 0x90, 0x88, 0x46, 0xee, 0xb8, 0x14, 0xde, 0x5e, 0x0b, 0xdb)
        else
          if x & 0x10 == 0 then
            Row(x, 0xe0, 0x32, 0x3a, 0x0a, 0x49, 0x06, 0x24, 0x5c, 0xc2, 0xd3, 0xac, 0x62, 0x91, 0x95, 0xe4, 0x79)
          else
            Row(x, 0xe7, 0xc8, 0x37, 0x6d, 0x8d, 0xd5, 0x4e, 0xa9, 0x6c, 0x56, 0xf4, 0xea, 0x65, 0x7a, 0xae, 0x08)
      else
        if x & 0x20 == 0 then
          if x & 0x10 == 0 then
            Row(x, 0xba, 0x78, 0x25, 0x2e, 0x1c, 0xa6, 0xb4, 0xc6, 0xe8, 0xdd, 0x74, 0x1f, 0x4b, 0xbd, 0x8b, 0x8a)
          else
            Row(x, 0x70, 0x3e, 0xb5, 0x66, 0x48, 0x03, 0xf6, 0x0e, 0x61, 0x35, 0x57, 0xb9, 0x86, 0xc1, 0x1d, 0x9e)
        else
          if x & 0x10 == 0 then
            Row(x, 0xe1, 0xf8, 0x98, 0x11, 0x69, 0xd9, 0x8e, 0x94, 0x9b, 0x1e, 0x87, 0xe9, 0xce, 0x55, 0x28, 0xdf)
          else
            Row(x, 0x8c, 0xa1, 0x89, 0x0d, 0xbf, 0xe6, 0x42, 0x68, 0x41, 0x99, 0x2d, 0x0f, 0xb0, 0x54, 0xbb, 0x16)
  }

  /** The table `rsbox`. */
  function RSBox(x: byte): byte {
    if x & 0x80 == 0 then
      if x & 0x40 == 0 then
        if x & 0x20 == 0 then
          if x & 0x10 == 0 then
            Row(x, 0x52, 0x09, 0x6a, 0xd5, 0x30, 0x36, 0xa5, 0x38, 0xbf, 0x40, 0xa3, 0x9e, 0x81, 0xf3, 0xd7, 0xfb)
          else
            Row(x, 0x7c, 0xe3, 0x39, 0x82, 0x9b, 0x2f, 0xff, 0x87, 0x34, 0x8e, 0x43, 0x44, 0xc4, 0xde, 0xe9, 0xcb)
        else
          if x & 0x10 == 0 then
            Row(x, 0x54, 0x7b, 0x94, 0x32, 0xa6, 0xc2, 0x23, 0x3d, 0xee, 0x4c, 0x95, 0x0b, 0x42, 0xfa, 0xc3, 0x4e)
          else
            Row(x, 0x08, 0x2e, 0xa1, 0x66, 0x28, 0xd9, 0x24, 0xb2, 0x76, 0x5b, 0xa2, 0x49, 0x6d, 0x8b, 0xd1, 0x25)
      else
        if x & 0x20 == 0 then
          if x & 0x10 == 0 then
            Row(x, 0x72, 0xf8, 0xf6, 0x64, 0x86, 0x68, 0x98, 0x16, 0xd4, 0xa4, 0x5c, 0xcc, 0x5d, 0x65, 0xb6, 0x92)
          else
            Row(x, 0x6c, 0x70, 0x48, 0x50, 0xfd, 0xed, 0xb9, 0xda, 0x5e, 0x15, 0x46, 0x57, 0xa7, 0x8d, 0x9d, 0x84)
        else
          if x & 0x10 == 0 then
            Row(x, 0x90, 0xd8, 0xab, 0x00, 0x8c, 0xbc, 0xd3, 0x0a, 0xf7, 0xe4, 0x58, 0x05, 0xb8, 0xb3, 0x45, 0x06)
          else
            Row(x, 0xd0, 0x2c, 0x1e, 0x8f, 0xca, 0x3f, 0x0f, 0x02, 0xc1, 0xaf, 0xbd, 0x03, 0x01, 0x13, 0x8a, 0x6b)
    else
      if x & 0x40 == 0 then
        if x & 0x20 == 0 then
          if x & 0x10 == 0 then
            Row(x, 0x3a, 0x91, 0x11, 0x41, 0x4f, 0x67, 0xdc, 0xea, 0x97, 0xf2, 0xcf, 0xce, 0xf0, 0xb4, 0xe6, 0x73)
          else
            Row(x, 0x96, 0xac, 0x74, 0x22, 0xe7, 0xad, 0x35, 0x85, 0xe2, 0xf9, 0x37, 0xe8, 0x1c, 0x75, 0xdf, 0x6e)
        else
          if x & 0x10 == 0 then
            Row(x, 0x47, 0xf1, 0x1a, 0x71, 0x1d, 0x29, 0xc5, 0x89, 0x6f, 0xb7, 0x62, 0x0e, 0xaa, 0x18, 0xbe, 0x1b)
          else
            Row(x, 0xfc, 0x56, 0x3e, 0x4b, 0xc6, 0xd2, 0x79, 0x20, 0x9a, 0xdb, 0xc0, 0xfe, 0x78, 0xcd, 0x5a, 0xf4)
      else
        if x & 0x20 == 0 then
          if x & 0x10 == 0 then
            Row(x, 0x1f, 0xdd, 0xa8, 0x33, 0x88, 0x07, 0xc7, 0x31, 0xb1, 0x12, 0x10, 0x59, 0x27, 0x80, 0xec, 0x5f)
          else
            Row(x, 0x60, 0x51, 0x7f, 0xa9, 0x19, 0xb5, 0x4a, 0x0d, 0x2d, 0xe5, 0x7a, 0x9f, 0x93, 0xc9, 0x9c, 0xef)
        else
          if x & 0x10 == 0 then
            Row(x, 0xa0, 0xe0, 0x3b, 0x4d, 0xae, 0x2a, 0xf5, 0xb0, 0xc8, 0xeb, 0xbb, 0x3c, 0x83, 0x53, 0x99, 0x61)
          else
            Row(x, 0x17, 0x2b, 0x04, 0x7e, 0xba, 0x77, 0xd6, 0x26, 0xe1, 0x69, 0x14, 0x63, 0x55, 0x21, 0x0c, 0x7d)
  }

  // ----- The reference definition, section 5.1.1 of FIPS 197.

  function RotateLeft1(b: byte): byte { (b << 1) | (b >> 7) }

  function RotateLeft2(b: byte): byte { (b << 2) | (b >> 6) }

  function RotateLeft3(b: byte): byte { (b << 3) | (b >> 5) }

  function RotateLeft4(b: byte): byte { (b << 4) | (b >> 4) }

  /** b'_i = b_i + b_(i+4) + b_(i+5) + b_(i+6) + b_(i+7) + c_i, with c = 0x63. */
  function Affine(b: byte): byte {
    b ^ RotateLeft1(b) ^ RotateLeft2(b) ^ RotateLeft3(b) ^ RotateLeft4(b) ^ 0x63
  }

  /** The inverse of Affine. */
  function AffineInverse(b: byte): byte {
    RotateLeft1(b) ^ RotateLeft3(b) ^ ((b << 6) | (b >> 2)) ^ 0x05
  }

  /** b is the multiplicative inverse of x, with 0 taken as its own inverse. */
  predicate IsInverse(x: byte, b: byte) {
    if x == 0 then b == 0 else Times(x, b) == 1
  }

  lemma AffineRedone(y: byte)
    ensures Affine(AffineInverse(y)) == y
  {
  }

  /** Every entry of the table is the affine image of the argument's inverse. */
  lemma SBoxIsStandard(x: byte)
    ensures exists b :: IsInverse(x, b) && SBox(x) == Affine(b)
  {
    hide Times, SBox, Affine, AffineInverse;
    AffineRedone(SBox(x));
    if x == 0 {
      TableHoldsZero();
    } else {
      TableHoldsInverses(x);
    }
    assert IsInverse(x, AffineInverse(SBox(x)));
  }

  lemma TableHoldsZero()
    ensures AffineInverse(SBox(0)) == 0
  {
  }

  // The table is checked a few rows at a time, so that each check stays small.

  lemma TableHoldsInverses(x: byte)
    requires x != 0
    ensures Times(x, AffineInverse(SBox(x))) == 1
  {
    hide Times, SBox, AffineInverse;
    if x >> 6 == 0 {
      HoldsInverses0(x);
    } else if x >> 6 == 1 {
      HoldsInverses1(x);
    } else if x >> 6 == 2 {
      HoldsInverses2(x);
    } else {
      HoldsInverses3(x);
    }
  }

  lemma HoldsInverses0(x: byte)
    requires x >> 6 == 0 && x != 0
    ensures Times(x, AffineInverse(SBox(x))) == 1
  {
  }

  lemma HoldsInverses1(x: byte)
    requires x >> 6 == 1
    ensures Times(x, AffineInverse(SBox(x))) == 1
  {
  }

  lemma HoldsInverses2(x: byte)
    requires x >> 6 == 2
    ensures Times(x, AffineInverse(SBox(x))) == 1
  {
  }

  lemma HoldsInverses3(x: byte)
    requires x >> 6 == 3
    ensures Times(x, AffineInverse(SBox(x))) == 1
  {
  }

  /** The two tables undo each other. */
  lemma SBoxesInverse(x: byte)
    ensures RSBox(SBox(x)) == x && SBox(RSBox(x)) == x
  {
    hide SBox, RSBox;
    if x >> 6 == 0 {
      Undone0(x);
      Redone0(x);
    } else if x >> 6 == 1 {
      Undone1(x);
      Redone1(x);
    } else if x >> 6 == 2 {
      Undone2(x);
      Redone2(x);
    } else {
      Undone3(x);
      Redone3(x);
    }
  }

  lemma Undone0(x: byte)
    requires x >> 6 == 0
    ensures RSBox(SBox(x)) == x
  {
  }

  lemma Redone0(x: byte)
    requires x >> 6 == 0
    ensures SBox(RSBox(x)) == x
  {
  }

  lemma Undone1(x: byte)
    requires x >> 6 == 1
    ensures RSBox(SBox(x)) == x
  {
  }

  lemma Redone1(x: byte)
    requires x >> 6 == 1
    ensures SBox(RSBox(x)) == x
  {
  }

  lemma Undone2(x: byte)
    requires x >> 6 == 2
    ensures RSBox(SBox(x)) == x
  {
  }

  lemma Redone2(x: byte)
    requires x >> 6 == 2
    ensures SBox(RSBox(x)) == x
  {
  }

  lemma Undone3(x: byte)
    requires x >> 6 == 3
    ensures RSBox(SBox(x)) == x
  {
  }

  lemma Redone3(x: byte)
    requires x >> 6 == 3
    ensures SBox(RSBox(x)) == x
  {
  }
}
