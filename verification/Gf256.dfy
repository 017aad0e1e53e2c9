/** The field GF(2^8) of FIPS 197, section 4: bytes are polynomials over GF(2),
    added with XOR and multiplied modulo x^8 + x^4 + x^3 + x + 1. */
module Gf256 {

  /** Addition in the field; the C operator ^ on bytes. */
  function Add(a: bv8, b: bv8): bv8 {
    a ^ b
  }

  /** Multiplication by x: the doubled polynomial, less the modulus 0x11b when its degree reaches 8. */
  function TimesX(a: bv8): bv8 {
    var p := (a as bv16) << 1;
    ((p ^ ((p >> 8) * 0x11b)) & 0xff) as bv8
  }

  /** `a` if the lowest bit is set, zero otherwise. */
  function Select(bits: bv8, a: bv8): bv8 {
    (0 - (bits & 1)) & a
  }

  /** Multiplication: the sum of those multiples a * x^i whose x^i occurs in `b` (section 4.2.1). */
  function Mul(a: bv8, b: bv8): bv8
    decreases b
  {
    if b == 0 then 0 else Add(Select(b, a), Mul(TimesX(a), b >> 1))
  }

  lemma AddLaws(a: bv8, b: bv8, c: bv8, d: bv8)
    ensures Add(a, 0) == a
    ensures Add(a, b) == Add(b, a)
    ensures Add(Add(a, b), Add(c, d)) == Add(Add(a, c), Add(b, d))
  {
  }

  lemma TimesXAdd(a: bv8, b: bv8)
    ensures TimesX(Add(a, b)) == Add(TimesX(a), TimesX(b))
  {
  }

  lemma SelectBit(bits: bv8, a: bv8)
    ensures (bits & 1) == 0 ==> Select(bits, a) == 0
    ensures (bits & 1) == 1 ==> Select(bits, a) == a
    ensures (bits & 1) == 0 || (bits & 1) == 1
  {
  }

  lemma SelectAdd(bits: bv8, a: bv8, b: bv8)
    ensures Select(bits, Add(a, b)) == Add(Select(bits, a), Select(bits, b))
  {
    hide Add, Select;
    AddLaws(0, 0, 0, 0);
    SelectBit(bits, a);
    SelectBit(bits, b);
    SelectBit(bits, Add(a, b));
  }

  lemma LowBitOfXor(j: bv8, k: bv8)
    ensures (j ^ k) & 1 == (j & 1) ^ (k & 1)
  {
  }

  lemma HalfOfXor(j: bv8, k: bv8)
    ensures (j ^ k) >> 1 == (j >> 1) ^ (k >> 1)
  {
  }

  lemma AddSelf(a: bv8)
    ensures Add(a, a) == 0
  {
  }

  lemma SelectXor(j: bv8, k: bv8, a: bv8)
    ensures Select(j ^ k, a) == Add(Select(j, a), Select(k, a))
  {
    hide Add, Select;
    AddLaws(0, a, 0, 0);
    AddLaws(a, 0, 0, 0);
    AddLaws(0, 0, 0, 0);
    AddSelf(a);
    SelectBit(j, a);
    SelectBit(k, a);
    SelectBit(j ^ k, a);
    LowBitOfXor(j, k);
  }

  lemma MulStep(a: bv8, k: bv8)
    ensures Mul(a, k) == Add(Select(k, a), Mul(TimesX(a), k >> 1))
  {
    hide Add, TimesX;
    AddLaws(0, 0, 0, 0);
  }

  lemma HalvesShrink(j: bv8, k: bv8)
    ensures j | k != 0 ==> (j >> 1) | (k >> 1) < j | k
    ensures j | k == 0 ==> j == 0 && k == 0
    ensures 0 as bv8 ^ 0 == 0
  {
  }

  /** Coefficients add: a(j + k) = aj + ak. */
  lemma {:induction false} MulXor(a: bv8, j: bv8, k: bv8)
    ensures Mul(a, j ^ k) == Add(Mul(a, j), Mul(a, k))
    decreases j | k
  {
    hide Add, TimesX, Select;
    HalvesShrink(j, k);
    if j | k == 0 {
      AddLaws(0, 0, 0, 0);
    } else {
      MulXorStep(a, j, k);
    }
  }

  lemma MulXorGlue(a: bv8, j: bv8, k: bv8, jk: bv8)
    requires jk == j ^ k
    requires Mul(TimesX(a), jk >> 1) == Add(Mul(TimesX(a), j >> 1), Mul(TimesX(a), k >> 1))
    ensures Mul(a, jk) == Add(Mul(a, j), Mul(a, k))
  {
    hide *;
    MulStep(a, j);
    MulStep(a, k);
    MulStep(a, jk);
    SelectXor(j, k, a);
    AddLaws(Select(j, a), Select(k, a), Mul(TimesX(a), j >> 1), Mul(TimesX(a), k >> 1));
  }

  lemma {:induction false} MulXorStep(a: bv8, j: bv8, k: bv8)
    requires j | k != 0
    ensures Mul(a, j ^ k) == Add(Mul(a, j), Mul(a, k))
    decreases j | k, 0
  {
    hide *;
    HalvesShrink(j, k);
    MulXor(TimesX(a), j >> 1, k >> 1);
    HalfOfXor(j, k);
    MulXorGlue(a, j, k, j ^ k);
  }

  /** Multiplication by any coefficient distributes over addition. */
  lemma {:induction false} MulAdd(a: bv8, b: bv8, k: bv8)
    ensures Mul(Add(a, b), k) == Add(Mul(a, k), Mul(b, k))
    decreases k
  {
    hide Add, TimesX, Select;
    if k == 0 {
      AddLaws(0, 0, 0, 0);
    } else {
      TimesXAdd(a, b);
      SelectAdd(k, a, b);
      MulAdd(TimesX(a), TimesX(b), k >> 1);
      AddLaws(Select(k, a), Select(k, b), Mul(TimesX(a), k >> 1), Mul(TimesX(b), k >> 1));
    }
  }

  /** {02}a + {03}b + {01}c + {01}d: one byte of MixColumns, section 5.1.3. */
  function MixByte(a: bv8, b: bv8, c: bv8, d: bv8): bv8 {
    Add(Add(Mul(a, 2), Mul(b, 3)), Add(Mul(c, 1), Mul(d, 1)))
  }

  /** {0e}a + {0b}b + {0d}c + {09}d: one byte of InvMixColumns, section 5.3.3. */
  function InvMixByte(a: bv8, b: bv8, c: bv8, d: bv8): bv8 {
    Add(Add(Mul(a, 0x0e), Mul(b, 0x0b)), Add(Mul(c, 0x0d), Mul(d, 9)))
  }

  /** The sum of a 4x4 table is the same by rows and by columns. */
  lemma SumByColumns(x00: bv8, x01: bv8, x02: bv8, x03: bv8, x10: bv8, x11: bv8, x12: bv8, x13: bv8,
                     x20: bv8, x21: bv8, x22: bv8, x23: bv8, x30: bv8, x31: bv8, x32: bv8, x33: bv8)
    ensures Add(Add(Add(Add(x00, x01), Add(x02, x03)), Add(Add(x10, x11), Add(x12, x13))),
                Add(Add(Add(x20, x21), Add(x22, x23)), Add(Add(x30, x31), Add(x32, x33))))
         == Add(Add(Add(Add(x00, x10), Add(x20, x30)), Add(Add(x01, x11), Add(x21, x31))),
                Add(Add(Add(x02, x12), Add(x22, x32)), Add(Add(x03, x13), Add(x23, x33))))
  {
    hide Add;
    AddLaws(Add(x00, x01), Add(x02, x03), Add(x10, x11), Add(x12, x13));
    AddLaws(x00, x01, x10, x11);
    AddLaws(x02, x03, x12, x13);
    AddLaws(Add(x20, x21), Add(x22, x23), Add(x30, x31), Add(x32, x33));
    AddLaws(x20, x21, x30, x31);
    AddLaws(x22, x23, x32, x33);
    var c0, c1, c2, c3 := Add(x00, x10), Add(x01, x11), Add(x02, x12), Add(x03, x13);
    var d0, d1, d2, d3 := Add(x20, x30), Add(x21, x31), Add(x22, x32), Add(x23, x33);
    AddLaws(Add(c0, c1), Add(c2, c3), Add(d0, d1), Add(d2, d3));
    AddLaws(c0, c1, d0, d1);
    AddLaws(c2, c3, d2, d3);
  }

  lemma MulSmall(a: bv8)
    ensures Mul(a, 0) == 0 && Mul(a, 1) == a && Mul(a, 2) == TimesX(a) && Mul(a, 3) == Add(a, TimesX(a))
  {
    hide Add, TimesX, Select;
    var a1 := TimesX(a);
    SelectBit(1, a);
    SelectBit(1, a1);
    SelectBit(2, a);
    SelectBit(3, a);
    AddLaws(a, 0, 0, 0);
    AddLaws(a1, 0, 0, 0);
    AddLaws(0, a1, 0, 0);
    MulStep(a, 1);
    MulStep(a1, 1);
    MulStep(a, 2);
    MulStep(a, 3);
  }

  /** Scaling by x first doubles the coefficient, as long as it does not overflow. */
  lemma MulTimesX(a: bv8, k: bv8)
    requires k < 0x80
    ensures Mul(TimesX(a), k) == Mul(a, k << 1)
  {
    hide Add, TimesX;
    MulStep(a, k << 1);
    assert (k << 1) >> 1 == k && (k << 1) & 1 == 0;
    SelectBit(k << 1, a);
    AddLaws(Mul(TimesX(a), k), 0, 0, 0);
    AddLaws(0, Mul(TimesX(a), k), 0, 0);
  }

  /** Multiplying by one and the three coefficients of MixColumns, then by k. */
  lemma MulMul(a: bv8, k: bv8)
    requires k < 0x80
    ensures Mul(Mul(a, 1), k) == Mul(a, k)
    ensures Mul(Mul(a, 2), k) == Mul(a, k << 1)
    ensures Mul(Mul(a, 3), k) == Mul(a, k ^ (k << 1))
  {
    hide *;
    MulSmall(a);
    MulTimesX(a, k);
    MulAdd(a, TimesX(a), k);
    MulXor(a, k, k << 1);
  }

  lemma SumOfMuls(a: bv8, p: bv8, q: bv8, r: bv8, s: bv8)
    ensures Add(Add(Mul(a, p), Mul(a, q)), Add(Mul(a, r), Mul(a, s))) == Mul(a, (p ^ q) ^ (r ^ s))
  {
    hide *;
    MulXor(a, p, q);
    MulXor(a, r, s);
    MulXor(a, p ^ q, r ^ s);
  }

  lemma MulMixByte(a: bv8, b: bv8, c: bv8, d: bv8, k: bv8)
    requires k < 0x80
    ensures Mul(MixByte(a, b, c, d), k)
         == Add(Add(Mul(a, k << 1), Mul(b, k ^ (k << 1))), Add(Mul(c, k), Mul(d, k)))
  {
    hide Add, Mul;
    MulAdd(Add(Mul(a, 2), Mul(b, 3)), Add(Mul(c, 1), Mul(d, 1)), k);
    MulAdd(Mul(a, 2), Mul(b, 3), k);
    MulAdd(Mul(c, 1), Mul(d, 1), k);
    MulMul(a, k);
    MulMul(b, k);
    MulMul(c, k);
    MulMul(d, k);
  }

  lemma RotateSum(p: bv8, q: bv8, r: bv8, s: bv8)
    ensures Add(Add(p, q), Add(r, s)) == Add(Add(s, p), Add(q, r))
    ensures Add(Add(p, q), Add(r, s)) == Add(Add(r, s), Add(p, q))
    ensures Add(Add(p, q), Add(r, s)) == Add(Add(q, r), Add(s, p))
  {
    hide Add;
    AddLaws(Add(p, q), Add(r, s), 0, 0);
    AddLaws(p, q, s, r);
    AddLaws(r, s, 0, 0);
    AddLaws(p, s, 0, 0);
    AddLaws(q, r, 0, 0);
    AddLaws(Add(p, s), Add(q, r), 0, 0);
  }

  /** Four rows, each rotated one place further, summed by columns. */
  lemma SumOfRotatedRows(a0: bv8, b0: bv8, c0: bv8, d0: bv8, b1: bv8, c1: bv8, d1: bv8, a1: bv8,
                         c2: bv8, d2: bv8, a2: bv8, b2: bv8, d3: bv8, a3: bv8, b3: bv8, c3: bv8)
    ensures Add(Add(Add(Add(a0, b0), Add(c0, d0)), Add(Add(b1, c1), Add(d1, a1))),
                Add(Add(Add(c2, d2), Add(a2, b2)), Add(Add(d3, a3), Add(b3, c3))))
         == Add(Add(Add(Add(a0, a1), Add(a2, a3)), Add(Add(b0, b1), Add(b2, b3))),
                Add(Add(Add(c0, c1), Add(c2, c3)), Add(Add(d0, d1), Add(d2, d3))))
  {
    hide Add;
    RotateSum(b1, c1, d1, a1);
    RotateSum(c2, d2, a2, b2);
    RotateSum(d3, a3, b3, c3);
    SumByColumns(a0, b0, c0, d0, a1, b1, c1, d1, a2, b2, c2, d2, a3, b3, c3, d3);
  }

  /** The product of the two coefficient matrices, row by row, is the identity. */
  lemma CoefficientsCancel(a: bv8, b: bv8, c: bv8, d: bv8)
    ensures Add(Add(Add(Add(Mul(a, 0x1c), Mul(b, 0x12)), Add(Mul(c, 0x0e), Mul(d, 0x0e))),
                    Add(Add(Mul(b, 0x16), Mul(c, 0x1d)), Add(Mul(d, 0x0b), Mul(a, 0x0b)))),
                Add(Add(Add(Mul(c, 0x1a), Mul(d, 0x17)), Add(Mul(a, 0x0d), Mul(b, 0x0d))),
                    Add(Add(Mul(d, 0x12), Mul(a, 0x1b)), Add(Mul(b, 0x09), Mul(c, 0x09))))) == a
  {
    hide Add, Mul;
    SumOfRotatedRows(Mul(a, 0x1c), Mul(b, 0x12), Mul(c, 0x0e), Mul(d, 0x0e),
                     Mul(b, 0x16), Mul(c, 0x1d), Mul(d, 0x0b), Mul(a, 0x0b),
                     Mul(c, 0x1a), Mul(d, 0x17), Mul(a, 0x0d), Mul(b, 0x0d),
                     Mul(d, 0x12), Mul(a, 0x1b), Mul(b, 0x09), Mul(c, 0x09));
    SumOfMuls(a, 0x1c, 0x0b, 0x0d, 0x1b);
    SumOfMuls(b, 0x12, 0x16, 0x0d, 0x09);
    SumOfMuls(c, 0x0e, 0x1d, 0x1a, 0x09);
    SumOfMuls(d, 0x0e, 0x0b, 0x17, 0x12);
    MulSmall(a);
    MulSmall(b);
    MulSmall(c);
    MulSmall(d);
    AddLaws(0, 0, 0, 0);
    AddLaws(a, 0, 0, 0);
  }

  /** InvMixColumns undoes MixColumns on one byte of a column; the other three are its rotations. */
  lemma InvMixByteOfMixBytes(a: bv8, b: bv8, c: bv8, d: bv8)
    ensures InvMixByte(MixByte(a, b, c, d), MixByte(b, c, d, a), MixByte(c, d, a, b), MixByte(d, a, b, c)) == a
  {
    hide Add, Mul, MixByte;
    MulMixByte(a, b, c, d, 0x0e);
    MulMixByte(b, c, d, a, 0x0b);
    MulMixByte(c, d, a, b, 0x0d);
    MulMixByte(d, a, b, c, 0x09);
    CoefficientsCancel(a, b, c, d);
  }

  lemma TimesXZero()
    ensures TimesX(0) == 0
  {
  }

  lemma {:induction false} TimesXMul(a: bv8, k: bv8)
    ensures TimesX(Mul(a, k)) == Mul(TimesX(a), k)
    decreases k
  {
    hide Add, TimesX, Select;
    TimesXZero();
    if k != 0 {
      TimesXMul(TimesX(a), k >> 1);
      TimesXAdd(Select(k, a), Mul(TimesX(a), k >> 1));
      SelectBit(k, a);
      SelectBit(k, TimesX(a));
    }
  }

  /** The same products, in the other order. */
  lemma MulMulLeft(a: bv8, k: bv8)
    requires k < 0x80
    ensures Mul(Mul(a, k), 1) == Mul(a, k)
    ensures Mul(Mul(a, k), 2) == Mul(a, k << 1)
    ensures Mul(Mul(a, k), 3) == Mul(a, k ^ (k << 1))
  {
    hide *;
    MulSmall(Mul(a, k));
    TimesXMul(a, k);
    MulTimesX(a, k);
    MulXor(a, k, k << 1);
  }

  lemma MulInvMixByte(a: bv8, b: bv8, c: bv8, d: bv8, k: bv8)
    ensures Mul(InvMixByte(a, b, c, d), k)
         == Add(Add(Mul(Mul(a, 0x0e), k), Mul(Mul(b, 0x0b), k)), Add(Mul(Mul(c, 0x0d), k), Mul(Mul(d, 0x09), k)))
  {
    hide Add, Mul;
    MulAdd(Add(Mul(a, 0x0e), Mul(b, 0x0b)), Add(Mul(c, 0x0d), Mul(d, 0x09)), k);
    MulAdd(Mul(a, 0x0e), Mul(b, 0x0b), k);
    MulAdd(Mul(c, 0x0d), Mul(d, 0x09), k);
  }

  lemma InvCoefficientsCancel(a: bv8, b: bv8, c: bv8, d: bv8)
    ensures Add(Add(Add(Add(Mul(a, 0x1c), Mul(b, 0x16)), Add(Mul(c, 0x1a), Mul(d, 0x12))),
                    Add(Add(Mul(b, 0x12), Mul(c, 0x1d)), Add(Mul(d, 0x17), Mul(a, 0x1b)))),
                Add(Add(Add(Mul(c, 0x0e), Mul(d, 0x0b)), Add(Mul(a, 0x0d), Mul(b, 0x09))),
                    Add(Add(Mul(d, 0x0e), Mul(a, 0x0b)), Add(Mul(b, 0x0d), Mul(c, 0x09))))) == a
  {
    hide Add, Mul;
    SumOfRotatedRows(Mul(a, 0x1c), Mul(b, 0x16), Mul(c, 0x1a), Mul(d, 0x12),
                     Mul(b, 0x12), Mul(c, 0x1d), Mul(d, 0x17), Mul(a, 0x1b),
                     Mul(c, 0x0e), Mul(d, 0x0b), Mul(a, 0x0d), Mul(b, 0x09),
                     Mul(d, 0x0e), Mul(a, 0x0b), Mul(b, 0x0d), Mul(c, 0x09));
    SumOfMuls(a, 0x1c, 0x1b, 0x0d, 0x0b);
    SumOfMuls(b, 0x16, 0x12, 0x09, 0x0d);
    SumOfMuls(c, 0x1a, 0x1d, 0x0e, 0x09);
    SumOfMuls(d, 0x12, 0x17, 0x0b, 0x0e);
    MulSmall(a);
    MulSmall(b);
    MulSmall(c);
    MulSmall(d);
    AddLaws(0, 0, 0, 0);
    AddLaws(a, 0, 0, 0);
  }

  /** MixColumns undoes InvMixColumns on one byte of a column. */
  lemma MixByteOfInvMixBytes(a: bv8, b: bv8, c: bv8, d: bv8)
    ensures MixByte(InvMixByte(a, b, c, d), InvMixByte(b, c, d, a), InvMixByte(c, d, a, b), InvMixByte(d, a, b, c)) == a
  {
    hide Add, Mul, InvMixByte;
    MulInvMixByte(a, b, c, d, 2);
    MulInvMixByte(b, c, d, a, 3);
    MulInvMixByte(c, d, a, b, 1);
    MulInvMixByte(d, a, b, c, 1);
    MulMulLeft(a, 0x0e); MulMulLeft(b, 0x0b); MulMulLeft(c, 0x0d); MulMulLeft(d, 0x09);
    MulMulLeft(b, 0x0e); MulMulLeft(c, 0x0b); MulMulLeft(d, 0x0d); MulMulLeft(a, 0x09);
    MulMulLeft(c, 0x0e); MulMulLeft(d, 0x0b); MulMulLeft(a, 0x0d); MulMulLeft(b, 0x09);
    MulMulLeft(d, 0x0e); MulMulLeft(a, 0x0b); MulMulLeft(b, 0x0d); MulMulLeft(c, 0x09);
    InvCoefficientsCancel(a, b, c, d);
  }

  lemma ShiftsAdd(b: bv8)
    ensures (b >> 1) >> 1 == b >> 2 && (b >> 2) >> 1 == b >> 3 && (b >> 3) >> 1 == b >> 4 && (b >> 4) >> 1 == b >> 5
    ensures (b >> 5) >> 1 == b >> 6 && (b >> 6) >> 1 == b >> 7 && (b >> 7) >> 1 == 0
  {
  }

  lemma MulUnrolled(a: bv8, b: bv8)
    ensures var a1 := TimesX(a); var a2 := TimesX(a1); var a3 := TimesX(a2); var a4 := TimesX(a3);
      var a5 := TimesX(a4); var a6 := TimesX(a5); var a7 := TimesX(a6);
      Mul(a, b) == Add(Select(b, a), Add(Select(b >> 1, a1), Add(Select(b >> 2, a2), Add(Select(b >> 3, a3),
        Add(Select(b >> 4, a4), Add(Select(b >> 5, a5), Add(Select(b >> 6, a6), Select(b >> 7, a7))))))))
  {
    hide Add, TimesX, Mul, Select;
    var a1 := TimesX(a);
    var a2 := TimesX(a1);
    var a3 := TimesX(a2);
    var a4 := TimesX(a3);
    var a5 := TimesX(a4);
    var a6 := TimesX(a5);
    var a7 := TimesX(a6);
    ShiftsAdd(b);
    MulStep(a, b);
    MulStep(a1, b >> 1);
    MulStep(a2, b >> 2);
    MulStep(a3, b >> 3);
    MulStep(a4, b >> 4);
    MulStep(a5, b >> 5);
    MulStep(a6, b >> 6);
    MulStep(a7, b >> 7);
    MulSmall(TimesX(a7));
    AddLaws(Select(b >> 7, a7), 0, 0, 0);
  }
}
