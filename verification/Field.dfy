/** Arithmetic in GF(2^8) as aes.c computes it (xtime and the Multiply macro), proved
    equal to multiplication of polynomials modulo x^8 + x^4 + x^3 + x + 1, the definition
    of section 4.2 of FIPS 197. */
module Field {
  type byte = bv8

  function Xtime(x: byte): byte {
    (x << 1) ^ (((x >> 7) & 1) * 0x1b)
  }

  /** The Multiply macro: only the five low bits of y are looked at. */
  function Multiply(x: byte, y: byte): byte {
    ((y & 1) * x)
    ^ (((y >> 1) & 1) * Xtime(x))
    ^ (((y >> 2) & 1) * Xtime(Xtime(x)))
    ^ (((y >> 3) & 1) * Xtime(Xtime(Xtime(x))))
    ^ (((y >> 4) & 1) * Xtime(Xtime(Xtime(Xtime(x)))))
  }

  // ----- The reference definition: a polynomial product, then a polynomial remainder.

  /** The product of two polynomials over GF(2), of degree at most 14. */
  function PolyProduct(x: byte, y: byte): bv16 {
    var w := x as bv16;
    (if y & 0x01 != 0 then w else 0)
    ^ (if y & 0x02 != 0 then w << 1 else 0)
    ^ (if y & 0x04 != 0 then w << 2 else 0)
    ^ (if y & 0x08 != 0 then w << 3 else 0)
    ^ (if y & 0x10 != 0 then w << 4 else 0)
    ^ (if y & 0x20 != 0 then w << 5 else 0)
    ^ (if y & 0x40 != 0 then w << 6 else 0)
    ^ (if y & 0x80 != 0 then w << 7 else 0)
  }

  /** One step of long division: cancels the term `lead` of p with a multiple of the modulus. */
  function Cancel(p: bv16, lead: bv16, multiple: bv16): bv16 {
    if p & lead != 0 then p ^ multiple else p
  }

  /** The remainder modulo x^8 + x^4 + x^3 + x + 1 (0x11b), by long division. */
  function PolyRemainder(p: bv16): byte {
    var p14 := Cancel(p, 0x4000, 0x46c0);
    var p13 := Cancel(p14, 0x2000, 0x2360);
    var p12 := Cancel(p13, 0x1000, 0x11b0);
    var p11 := Cancel(p12, 0x0800, 0x08d8);
    var p10 := Cancel(p11, 0x0400, 0x046c);
    var p9 := Cancel(p10, 0x0200, 0x0236);
    var p8 := Cancel(p9, 0x0100, 0x011b);
    (p8 & 0xff) as byte
  }

  /** Multiplication in GF(2^8), section 4.2 of FIPS 197. */
  function Times(x: byte, y: byte): byte {
    PolyRemainder(PolyProduct(x, y))
  }

  // ----- Multiply computes Times.

  lemma XtimeIsTimesTwo(x: byte)
    ensures Xtime(x) == Times(x, 2)
  {
  }

  lemma MultiplyFrom0(x: byte, y: byte)
    requires y < 4
    ensures Multiply(x, y) == Times(x, y)
  {
  }

  lemma MultiplyFrom4(x: byte, y: byte)
    requires 4 <= y < 8
    ensures Multiply(x, y) == Times(x, y)
  {
  }

  lemma MultiplyFrom8(x: byte, y: byte)
    requires 8 <= y < 12
    ensures Multiply(x, y) == Times(x, y)
  {
  }

  lemma MultiplyFrom12(x: byte, y: byte)
    requires 12 <= y < 16
    ensures Multiply(x, y) == Times(x, y)
  {
  }

  lemma MultiplyFrom16(x: byte, y: byte)
    requires 16 <= y < 20
    ensures Multiply(x, y) == Times(x, y)
  {
  }

  lemma MultiplyFrom20(x: byte, y: byte)
    requires 20 <= y < 24
    ensures Multiply(x, y) == Times(x, y)
  {
  }

  lemma MultiplyFrom24(x: byte, y: byte)
    requires 24 <= y < 28
    ensures Multiply(x, y) == Times(x, y)
  {
  }

  lemma MultiplyFrom28(x: byte, y: byte)
    requires 28 <= y < 32
    ensures Multiply(x, y) == Times(x, y)
  {
  }

  /** The macro is multiplication in the field exactly for the factors of at most five bits;
      it is called with 0x09, 0x0b, 0x0d and 0x0e. */
  lemma MultiplyIsTimes(y: byte)
    ensures (forall x: byte :: Multiply(x, y) == Times(x, y)) <==> y < 32
  {
    if y < 32 {
      forall x: byte ensures Multiply(x, y) == Times(x, y) {
        hide Multiply, Times;
        if y < 4 { MultiplyFrom0(x, y); }
        else if y < 8 { MultiplyFrom4(x, y); }
        else if y < 12 { MultiplyFrom8(x, y); }
        else if y < 16 { MultiplyFrom12(x, y); }
        else if y < 20 { MultiplyFrom16(x, y); }
        else if y < 24 { MultiplyFrom20(x, y); }
        else if y < 28 { MultiplyFrom24(x, y); }
        else { MultiplyFrom28(x, y); }
      }
    } else {
      MultiplyTooWide(y);
    }
  }

  lemma MultiplyTooWide(y: byte)
    requires 32 <= y
    ensures Multiply(1, y) != Times(1, y)
  {
  }

  // ----- xtime is linear, so a whole column can be multiplied term by term.

  lemma XtimeXor(x: byte, y: byte)
    ensures Xtime(x ^ y) == Xtime(x) ^ Xtime(y)
  {
  }

  function Sum2(a: byte, b: byte): byte { a ^ b }

  function Sum3(a: byte, b: byte, c: byte): byte { a ^ b ^ c }

  function Sum4(a: byte, b: byte, c: byte, d: byte): byte { a ^ b ^ c ^ d }

  function Sum5(a: byte, b: byte, c: byte, d: byte, e: byte): byte { a ^ b ^ c ^ d ^ e }

  lemma XtimeSum2(a: byte, b: byte)
    ensures Xtime(Sum2(a, b)) == Sum2(Xtime(a), Xtime(b))
  {
    hide Xtime;
    XtimeXor(a, b);
  }

  lemma Sum3Nests(a: byte, b: byte, c: byte)
    ensures Sum3(a, b, c) == Sum2(Sum2(a, b), c)
  {
  }

  lemma Sum4Nests(a: byte, b: byte, c: byte, d: byte)
    ensures Sum4(a, b, c, d) == Sum2(Sum3(a, b, c), d)
  {
  }

  lemma Sum5Nests(a: byte, b: byte, c: byte, d: byte, e: byte)
    ensures Sum5(a, b, c, d, e) == Sum2(Sum4(a, b, c, d), e)
  {
  }

  lemma XtimeSums(a: byte, b: byte, c: byte, d: byte, e: byte)
    ensures Xtime(Sum3(a, b, c)) == Sum3(Xtime(a), Xtime(b), Xtime(c))
    ensures Xtime(Sum4(a, b, c, d)) == Sum4(Xtime(a), Xtime(b), Xtime(c), Xtime(d))
    ensures Xtime(Sum5(a, b, c, d, e)) == Sum5(Xtime(a), Xtime(b), Xtime(c), Xtime(d), Xtime(e))
  {
    hide Xtime, Sum2, Sum3, Sum4, Sum5;
    var a', b', c', d', e' := Xtime(a), Xtime(b), Xtime(c), Xtime(d), Xtime(e);
    XtimeSum2(a, b);
    Sum3Nests(a, b, c);
    XtimeSum2(Sum2(a, b), c);
    Sum3Nests(a', b', c');
    Sum4Nests(a, b, c, d);
    XtimeSum2(Sum3(a, b, c), d);
    Sum4Nests(a', b', c', d');
    Sum5Nests(a, b, c, d, e);
    XtimeSum2(Sum4(a, b, c, d), e);
    Sum5Nests(a', b', c', d', e');
  }

  // ----- One byte of a column, as sections 5.1.3 and 5.3.3 of FIPS 197 multiply it.

  function MixByte(a: byte, b: byte, c: byte, d: byte): byte {
    Times(a, 0x02) ^ Times(b, 0x03) ^ c ^ d
  }

  function InvMixByte(a: byte, b: byte, c: byte, d: byte): byte {
    Times(a, 0x0e) ^ Times(b, 0x0b) ^ Times(c, 0x0d) ^ Times(d, 0x09)
  }

  function Xtime2(x: byte): byte { Xtime(Xtime(x)) }

  function Xtime3(x: byte): byte { Xtime(Xtime(Xtime(x))) }

  /** The eleven xtime powers that InvMixByte adds up. */
  function InvSum(a1: byte, a2: byte, a3: byte, b0: byte, b1: byte, b3: byte,
                  c0: byte, c2: byte, c3: byte, d0: byte, d3: byte): byte
  {
    (a1 ^ a2 ^ a3) ^ (b0 ^ b1 ^ b3) ^ (c0 ^ c2 ^ c3) ^ (d0 ^ d3)
  }

  lemma InvSumInline(a1: byte, a2: byte, a3: byte, b0: byte, b1: byte, b3: byte,
                     c0: byte, c2: byte, c3: byte, d0: byte, d3: byte)
    ensures InvSum(a1, a2, a3, b0, b1, b3, c0, c2, c3, d0, d3)
         == Sum4(a1 ^ a2 ^ a3, b0 ^ b1 ^ b3, c0 ^ c2 ^ c3, d0 ^ d3)
  {
  }

  lemma InvSumNests(a1: byte, a2: byte, a3: byte, b0: byte, b1: byte, b3: byte,
                    c0: byte, c2: byte, c3: byte, d0: byte, d3: byte)
    ensures InvSum(a1, a2, a3, b0, b1, b3, c0, c2, c3, d0, d3)
         == Sum4(Sum3(a1, a2, a3), Sum3(b0, b1, b3), Sum3(c0, c2, c3), Sum2(d0, d3))
  {
    hide InvSum, Sum4;
    InvSumInline(a1, a2, a3, b0, b1, b3, c0, c2, c3, d0, d3);
  }

  lemma MixByteAtoms(t2: byte, t3: byte, a1: byte, b1: byte, b: byte, c: byte, d: byte)
    requires t2 == a1 && t3 == b1 ^ b
    ensures t2 ^ t3 ^ c ^ d == Sum5(a1, b1, b, c, d)
  {
  }

  lemma MixByteAsSum(a: byte, b: byte, c: byte, d: byte)
    ensures MixByte(a, b, c, d) == Sum5(Xtime(a), Xtime(b), b, c, d)
  {
    hide Xtime, Times, Sum5;
    TimesThree(b);
    XtimeIsTimesTwo(a);
    MixByteAtoms(Times(a, 2), Times(b, 3), Xtime(a), Xtime(b), b, c, d);
  }

  lemma TimesThree(x: byte)
    ensures Times(x, 3) == Xtime(x) ^ x
  {
  }

  lemma Multiply0e(x: byte)
    ensures Multiply(x, 0x0e) == Sum3(Xtime(x), Xtime2(x), Xtime3(x))
  {
    hide Xtime;
  }

  lemma Multiply0b(x: byte)
    ensures Multiply(x, 0x0b) == Sum3(x, Xtime(x), Xtime3(x))
  {
    hide Xtime;
  }

  lemma Multiply0d(x: byte)
    ensures Multiply(x, 0x0d) == Sum3(x, Xtime2(x), Xtime3(x))
  {
    hide Xtime;
  }

  lemma Multiply09(x: byte)
    ensures Multiply(x, 0x09) == Sum2(x, Xtime3(x))
  {
    hide Xtime;
  }

  lemma MultiplyConstants(x: byte)
    ensures Multiply(x, 0x0e) == Times(x, 0x0e)
    ensures Multiply(x, 0x0b) == Times(x, 0x0b)
    ensures Multiply(x, 0x0d) == Times(x, 0x0d)
    ensures Multiply(x, 0x09) == Times(x, 0x09)
  {
    hide Multiply, Times;
    MultiplyIsTimes(0x0e);
    MultiplyIsTimes(0x0b);
    MultiplyIsTimes(0x0d);
    MultiplyIsTimes(0x09);
  }

  lemma InvMixByteIsSum4(a: byte, b: byte, c: byte, d: byte)
    ensures InvMixByte(a, b, c, d) == Sum4(Times(a, 0x0e), Times(b, 0x0b), Times(c, 0x0d), Times(d, 0x09))
  {
    hide Times;
  }

  lemma InvMixByteAsSum(a: byte, b: byte, c: byte, d: byte)
    ensures InvMixByte(a, b, c, d)
         == InvSum(Xtime(a), Xtime2(a), Xtime3(a), b, Xtime(b), Xtime3(b), c, Xtime2(c), Xtime3(c), d, Xtime3(d))
  {
    hide Times, Multiply, Xtime, Xtime2, Xtime3, InvMixByte, InvSum, Sum2, Sum3, Sum4;
    InvMixByteIsSum4(a, b, c, d);
    MultiplyConstants(a);
    Multiply0e(a);
    MultiplyConstants(b);
    Multiply0b(b);
    MultiplyConstants(c);
    Multiply0d(c);
    MultiplyConstants(d);
    Multiply09(d);
    InvSumNests(Xtime(a), Xtime2(a), Xtime3(a), b, Xtime(b), Xtime3(b), c, Xtime2(c), Xtime3(c), d, Xtime3(d));
  }

  // ----- What the loops of MixColumns and InvMixColumns compute for a column a, b, c, d.

  /** `x ^= xtime(x ^ y) ^ Tmp`, where Tmp is the exclusive or of the whole column. */
  function SharedXor(x: byte, y: byte, tmp: byte): byte {
    x ^ (Xtime(x ^ y) ^ tmp)
  }

  function InvMixRow0(a: byte, b: byte, c: byte, d: byte): byte {
    Multiply(a, 0x0e) ^ Multiply(b, 0x0b) ^ Multiply(c, 0x0d) ^ Multiply(d, 0x09)
  }

  function InvMixRow1(a: byte, b: byte, c: byte, d: byte): byte {
    Multiply(a, 0x09) ^ Multiply(b, 0x0e) ^ Multiply(c, 0x0b) ^ Multiply(d, 0x0d)
  }

  function InvMixRow2(a: byte, b: byte, c: byte, d: byte): byte {
    Multiply(a, 0x0d) ^ Multiply(b, 0x09) ^ Multiply(c, 0x0e) ^ Multiply(d, 0x0b)
  }

  function InvMixRow3(a: byte, b: byte, c: byte, d: byte): byte {
    Multiply(a, 0x0b) ^ Multiply(b, 0x0d) ^ Multiply(c, 0x09) ^ Multiply(d, 0x0e)
  }

  lemma Sum4Turns(a: byte, b: byte, c: byte, d: byte)
    ensures Sum4(a, b, c, d) == Sum4(b, c, d, a)
  {
  }

  /** The shared exclusive or gives the matrix product of section 5.1.3 of FIPS 197. */
  lemma SharedXorIsMixByte(x: byte, y: byte, z: byte, w: byte, tmp: byte)
    requires tmp == Sum4(x, y, z, w)
    ensures SharedXor(x, y, tmp) == MixByte(x, y, z, w)
  {
    hide Xtime, Times, MixByte, Sum4, Sum5;
    XtimeXor(x, y);
    MixByteAsSum(x, y, z, w);
    SharedXorAtoms(x, y, z, w, tmp, Xtime(x ^ y), Xtime(x), Xtime(y));
  }

  lemma SharedXorAtoms(x: byte, y: byte, z: byte, w: byte, tmp: byte, t: byte, x1: byte, y1: byte)
    requires tmp == Sum4(x, y, z, w) && t == x1 ^ y1
    ensures x ^ (t ^ tmp) == Sum5(x1, y1, y, z, w)
  {
  }

  /** The four sums of Multiply terms give the matrix product of section 5.3.3 of FIPS 197. */
  lemma InvMixRowsAreInvMixByte(a: byte, b: byte, c: byte, d: byte)
    ensures InvMixRow0(a, b, c, d) == InvMixByte(a, b, c, d)
    ensures InvMixRow1(a, b, c, d) == InvMixByte(b, c, d, a)
    ensures InvMixRow2(a, b, c, d) == InvMixByte(c, d, a, b)
    ensures InvMixRow3(a, b, c, d) == InvMixByte(d, a, b, c)
  {
    hide Multiply, Times, InvMixByte, InvMixRow0, InvMixRow1, InvMixRow2, InvMixRow3, Sum4;
    MultiplyConstants(a);
    MultiplyConstants(b);
    MultiplyConstants(c);
    MultiplyConstants(d);
    InvMixRow0IsSum4(a, b, c, d);
    InvMixByteIsSum4(a, b, c, d);
    InvMixRow1IsSum4(a, b, c, d);
    InvMixByteIsSum4(b, c, d, a);
    InvMixRow2IsSum4(a, b, c, d);
    InvMixByteIsSum4(c, d, a, b);
    InvMixRow3IsSum4(a, b, c, d);
    InvMixByteIsSum4(d, a, b, c);
  }

  lemma InvMixRow0IsSum4(a: byte, b: byte, c: byte, d: byte)
    ensures InvMixRow0(a, b, c, d) == Sum4(Multiply(a, 0x0e), Multiply(b, 0x0b), Multiply(c, 0x0d), Multiply(d, 0x09))
  {
    hide Multiply;
  }

  lemma InvMixRow1IsSum4(a: byte, b: byte, c: byte, d: byte)
    ensures InvMixRow1(a, b, c, d) == Sum4(Multiply(b, 0x0e), Multiply(c, 0x0b), Multiply(d, 0x0d), Multiply(a, 0x09))
  {
    hide Multiply;
  }

  lemma InvMixRow2IsSum4(a: byte, b: byte, c: byte, d: byte)
    ensures InvMixRow2(a, b, c, d) == Sum4(Multiply(c, 0x0e), Multiply(d, 0x0b), Multiply(a, 0x0d), Multiply(b, 0x09))
  {
    hide Multiply;
  }

  lemma InvMixRow3IsSum4(a: byte, b: byte, c: byte, d: byte)
    ensures InvMixRow3(a, b, c, d) == Sum4(Multiply(d, 0x0e), Multiply(a, 0x0b), Multiply(b, 0x0d), Multiply(c, 0x09))
  {
    hide Multiply;
  }

  // ----- Mixing and unmixing undo each other.

  /** With x_k for the k-th xtime power of x: the inverse sum over a mixed column is a_0. */
  lemma UnmixAtoms(
    a0: byte, a1: byte, a2: byte, a3: byte, a4: byte, b0: byte, b1: byte, b2: byte, b3: byte, b4: byte,
    c0: byte, c1: byte, c2: byte, c3: byte, c4: byte, d0: byte, d1: byte, d2: byte, d3: byte, d4: byte)
    ensures InvSum(
      a2 ^ b2 ^ b1 ^ c1 ^ d1, a3 ^ b3 ^ b2 ^ c2 ^ d2, a4 ^ b4 ^ b3 ^ c3 ^ d3,
      b1 ^ c1 ^ c0 ^ d0 ^ a0, b2 ^ c2 ^ c1 ^ d1 ^ a1, b4 ^ c4 ^ c3 ^ d3 ^ a3,
      c1 ^ d1 ^ d0 ^ a0 ^ b0, c3 ^ d3 ^ d2 ^ a2 ^ b2, c4 ^ d4 ^ d3 ^ a3 ^ b3,
      d1 ^ a1 ^ a0 ^ b0 ^ c0, d4 ^ a4 ^ a3 ^ b3 ^ c3) == a0
  {
  }

  lemma UnmixSums(
    a0: byte, a1: byte, a2: byte, a3: byte, a4: byte, b0: byte, b1: byte, b2: byte, b3: byte, b4: byte,
    c0: byte, c1: byte, c2: byte, c3: byte, c4: byte, d0: byte, d1: byte, d2: byte, d3: byte, d4: byte)
    ensures InvSum(
      Sum5(a2, b2, b1, c1, d1), Sum5(a3, b3, b2, c2, d2), Sum5(a4, b4, b3, c3, d3),
      Sum5(b1, c1, c0, d0, a0), Sum5(b2, c2, c1, d1, a1), Sum5(b4, c4, c3, d3, a3),
      Sum5(c1, d1, d0, a0, b0), Sum5(c3, d3, d2, a2, b2), Sum5(c4, d4, d3, a3, b3),
      Sum5(d1, a1, a0, b0, c0), Sum5(d4, a4, a3, b3, c3)) == a0
  {
    hide InvSum;
    UnmixAtoms(a0, a1, a2, a3, a4, b0, b1, b2, b3, b4, c0, c1, c2, c3, c4, d0, d1, d2, d3, d4);
  }

  lemma UnmixByte(a: byte, b: byte, c: byte, d: byte)
    ensures InvMixByte(MixByte(a, b, c, d), MixByte(b, c, d, a), MixByte(c, d, a, b), MixByte(d, a, b, c)) == a
  {
    hide Xtime, Times, InvSum, Sum5, MixByte, InvMixByte;
    InvMixByteAsSum(MixByte(a, b, c, d), MixByte(b, c, d, a), MixByte(c, d, a, b), MixByte(d, a, b, c));
    MixedPowers(a, b, c, d);
    MixedPowers(b, c, d, a);
    MixedPowers(c, d, a, b);
    MixedPowers(d, a, b, c);
    UnmixSums(a, Xtime(a), Xtime2(a), Xtime3(a), Xtime(Xtime3(a)), b, Xtime(b), Xtime2(b), Xtime3(b), Xtime(Xtime3(b)),
              c, Xtime(c), Xtime2(c), Xtime3(c), Xtime(Xtime3(c)), d, Xtime(d), Xtime2(d), Xtime3(d), Xtime(Xtime3(d)));
  }

  lemma MixedPowers(a: byte, b: byte, c: byte, d: byte)
    ensures MixByte(a, b, c, d) == Sum5(Xtime(a), Xtime(b), b, c, d)
    ensures Xtime(MixByte(a, b, c, d)) == Sum5(Xtime2(a), Xtime2(b), Xtime(b), Xtime(c), Xtime(d))
    ensures Xtime2(MixByte(a, b, c, d)) == Sum5(Xtime3(a), Xtime3(b), Xtime2(b), Xtime2(c), Xtime2(d))
    ensures Xtime3(MixByte(a, b, c, d)) == Sum5(Xtime(Xtime3(a)), Xtime(Xtime3(b)), Xtime3(b), Xtime3(c), Xtime3(d))
  {
    hide Xtime, Sum5, MixByte;
    MixByteAsSum(a, b, c, d);
    XtimeSums(Xtime(a), Xtime(b), b, c, d);
    XtimeSums(Xtime2(a), Xtime2(b), Xtime(b), Xtime(c), Xtime(d));
    XtimeSums(Xtime3(a), Xtime3(b), Xtime2(b), Xtime2(c), Xtime2(d));
  }

  /** The other way round: a mixed column of inverse sums gives a_0 back. */
  lemma RemixAtoms(
    a0: byte, a1: byte, a2: byte, a3: byte, a4: byte, b0: byte, b1: byte, b2: byte, b3: byte, b4: byte,
    c0: byte, c1: byte, c2: byte, c3: byte, c4: byte, d0: byte, d1: byte, d2: byte, d3: byte, d4: byte)
    ensures Sum5(
      (a2 ^ a3 ^ a4) ^ (b1 ^ b2 ^ b4) ^ (c1 ^ c3 ^ c4) ^ (d1 ^ d4),
      (b2 ^ b3 ^ b4) ^ (c1 ^ c2 ^ c4) ^ (d1 ^ d3 ^ d4) ^ (a1 ^ a4),
      (b1 ^ b2 ^ b3) ^ (c0 ^ c1 ^ c3) ^ (d0 ^ d2 ^ d3) ^ (a0 ^ a3),
      (c1 ^ c2 ^ c3) ^ (d0 ^ d1 ^ d3) ^ (a0 ^ a2 ^ a3) ^ (b0 ^ b3),
      (d1 ^ d2 ^ d3) ^ (a0 ^ a1 ^ a3) ^ (b0 ^ b2 ^ b3) ^ (c0 ^ c3)) == a0
  {
  }

  lemma RemixSums(
    a0: byte, a1: byte, a2: byte, a3: byte, a4: byte, b0: byte, b1: byte, b2: byte, b3: byte, b4: byte,
    c0: byte, c1: byte, c2: byte, c3: byte, c4: byte, d0: byte, d1: byte, d2: byte, d3: byte, d4: byte)
    ensures Sum5(
      InvSum(a2, a3, a4, b1, b2, b4, c1, c3, c4, d1, d4),
      InvSum(b2, b3, b4, c1, c2, c4, d1, d3, d4, a1, a4),
      InvSum(b1, b2, b3, c0, c1, c3, d0, d2, d3, a0, a3),
      InvSum(c1, c2, c3, d0, d1, d3, a0, a2, a3, b0, b3),
      InvSum(d1, d2, d3, a0, a1, a3, b0, b2, b3, c0, c3)) == a0
  {
    hide Sum5;
    RemixAtoms(a0, a1, a2, a3, a4, b0, b1, b2, b3, b4, c0, c1, c2, c3, c4, d0, d1, d2, d3, d4);
  }

  lemma XtimeInvSum(a1: byte, a2: byte, a3: byte, b0: byte, b1: byte, b3: byte,
                    c0: byte, c2: byte, c3: byte, d0: byte, d3: byte)
    ensures Xtime(InvSum(a1, a2, a3, b0, b1, b3, c0, c2, c3, d0, d3))
         == InvSum(Xtime(a1), Xtime(a2), Xtime(a3), Xtime(b0), Xtime(b1), Xtime(b3),
                   Xtime(c0), Xtime(c2), Xtime(c3), Xtime(d0), Xtime(d3))
  {
    hide Xtime, InvSum, Sum2, Sum3, Sum4, Sum5;
    InvSumNests(a1, a2, a3, b0, b1, b3, c0, c2, c3, d0, d3);
    XtimeSums(Sum3(a1, a2, a3), Sum3(b0, b1, b3), Sum3(c0, c2, c3), Sum2(d0, d3), 0);
    XtimeSums(a1, a2, a3, 0, 0);
    XtimeSums(b0, b1, b3, 0, 0);
    XtimeSums(c0, c2, c3, 0, 0);
    XtimeSum2(d0, d3);
    InvSumNests(Xtime(a1), Xtime(a2), Xtime(a3), Xtime(b0), Xtime(b1), Xtime(b3),
                Xtime(c0), Xtime(c2), Xtime(c3), Xtime(d0), Xtime(d3));
  }

  lemma RemixByte(a: byte, b: byte, c: byte, d: byte)
    ensures MixByte(InvMixByte(a, b, c, d), InvMixByte(b, c, d, a), InvMixByte(c, d, a, b), InvMixByte(d, a, b, c)) == a
  {
    hide Xtime, Times, InvSum, Sum5, MixByte, InvMixByte;
    MixByteAsSum(InvMixByte(a, b, c, d), InvMixByte(b, c, d, a), InvMixByte(c, d, a, b), InvMixByte(d, a, b, c));
    InvMixByteAsSum(a, b, c, d);
    InvMixByteAsSum(b, c, d, a);
    InvMixByteAsSum(c, d, a, b);
    InvMixByteAsSum(d, a, b, c);
    XtimeInvSum(Xtime(a), Xtime2(a), Xtime3(a), b, Xtime(b), Xtime3(b), c, Xtime2(c), Xtime3(c), d, Xtime3(d));
    XtimeInvSum(Xtime(b), Xtime2(b), Xtime3(b), c, Xtime(c), Xtime3(c), d, Xtime2(d), Xtime3(d), a, Xtime3(a));
    RemixSums(a, Xtime(a), Xtime2(a), Xtime3(a), Xtime(Xtime3(a)), b, Xtime(b), Xtime2(b), Xtime3(b), Xtime(Xtime3(b)),
              c, Xtime(c), Xtime2(c), Xtime3(c), Xtime(Xtime3(c)), d, Xtime(d), Xtime2(d), Xtime3(d), Xtime(Xtime3(d)));
  }
}
