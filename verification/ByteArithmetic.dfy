/** The byte arithmetic of aes.c, and the field operations it stands for. */
module ByteArithmetic {
  import opened Gf256

  function Xtime(x: bv8): bv8 {
    (x << 1) ^ (((x >> 7) & 1) * 0x1b)
  }

  /** `x` times bit i of `y`. */
  function TimesBit(x: bv8, y: bv8, i: nat): bv8
    requires i < 8
  {
    ((y >> i) & 1) * x
  }

  /** aes.c multiplies by the low five bits of y only; Add is the C operator ^. */
  function Multiply(x: bv8, y: bv8): bv8 {
    Add(Add(Add(Add(
      TimesBit(x, y, 0),
      TimesBit(Xtime(x), y, 1)),
      TimesBit(Xtime(Xtime(x)), y, 2)),
      TimesBit(Xtime(Xtime(Xtime(x))), y, 3)),
      TimesBit(Xtime(Xtime(Xtime(Xtime(x)))), y, 4))
  }

  lemma XtimeIsTimesX(x: bv8)
    ensures Xtime(x) == TimesX(x)
  {
  }

  lemma TimesBitIsSelect(x: bv8, y: bv8)
    ensures TimesBit(x, y, 0) == Select(y, x) && TimesBit(x, y, 1) == Select(y >> 1, x)
    ensures TimesBit(x, y, 2) == Select(y >> 2, x) && TimesBit(x, y, 3) == Select(y >> 3, x)
    ensures TimesBit(x, y, 4) == Select(y >> 4, x)
  {
    hide Select;
    SelectBit(y, x);
    SelectBit(y >> 1, x);
    SelectBit(y >> 2, x);
    SelectBit(y >> 3, x);
    SelectBit(y >> 4, x);
  }

  lemma AddAssociates(a: bv8, b: bv8, c: bv8)
    ensures Add(a, Add(b, c)) == Add(Add(a, b), c)
  {
    hide Add;
    AddLaws(a, 0, b, c);
    AddLaws(0, c, 0, 0);
    AddLaws(c, 0, 0, 0);
  }

  /** What Multiply leaves out: the product by the high three bits of y. */
  lemma MultiplyLowBits(x: bv8, y: bv8)
    ensures Mul(x, y)
         == Add(Multiply(x, y), Mul(TimesX(TimesX(TimesX(TimesX(TimesX(x))))), y >> 5))
  {
    hide Add, TimesX, Mul, Select, Xtime, TimesBit;
    var x1 := TimesX(x);
    var x2 := TimesX(x1);
    var x3 := TimesX(x2);
    var x4 := TimesX(x3);
    XtimeIsTimesX(x);
    XtimeIsTimesX(x1);
    XtimeIsTimesX(x2);
    XtimeIsTimesX(x3);
    TimesBitIsSelect(x, y);
    TimesBitIsSelect(x1, y);
    TimesBitIsSelect(x2, y);
    TimesBitIsSelect(x3, y);
    TimesBitIsSelect(x4, y);
    ShiftsAdd(y);
    MulStep(x, y);
    MulStep(x1, y >> 1);
    MulStep(x2, y >> 2);
    MulStep(x3, y >> 3);
    MulStep(x4, y >> 4);
    var s0, s1, s2, s3, s4 := Select(y, x), Select(y >> 1, x1), Select(y >> 2, x2), Select(y >> 3, x3), Select(y >> 4, x4);
    var rest := Mul(TimesX(x4), y >> 5);
    AddAssociates(s0, s1, Add(s2, Add(s3, Add(s4, rest))));
    AddAssociates(Add(s0, s1), s2, Add(s3, Add(s4, rest)));
    AddAssociates(Add(Add(s0, s1), s2), s3, Add(s4, rest));
    AddAssociates(Add(Add(Add(s0, s1), s2), s3), s4, rest);
  }

  lemma TimesXIsZero(x: bv8)
    ensures TimesX(x) == 0 <==> x == 0
  {
  }

  lemma SumOfThreeZero(x: bv8, m: bv8)
    requires m < 8
    ensures var x1 := Xtime(x); var x2 := Xtime(x1);
      (Add(Select(m, x), Add(Select(m >> 1, x1), Add(Select(m >> 2, x2), 0))) == 0 <==> x == 0 || m == 0)
  {
  }

  lemma MulThreeBits(x: bv8, m: bv8)
    requires m < 8
    ensures Mul(x, m) == 0 <==> x == 0 || m == 0
  {
    hide TimesX;
    var x1 := TimesX(x);
    var x2 := TimesX(x1);
    XtimeIsTimesX(x);
    XtimeIsTimesX(x1);
    MulStep(x, m);
    MulStep(x1, m >> 1);
    MulStep(x2, m >> 2);
    MulSmall(TimesX(x2));
    assert m >> 1 >> 1 == m >> 2 && m >> 2 >> 1 == 0;
    SumOfThreeZero(x, m);
  }

  lemma AddIsZero(a: bv8, b: bv8)
    ensures Add(a, b) == a <==> b == 0
  {
  }

  lemma HighBits(y: bv8)
    ensures y >> 5 < 8
    ensures y >> 5 == 0 <==> y < 0x20
  {
  }

  /** Multiply is multiplication in the field exactly when y has no bit above the fifth, or x is zero. */
  lemma MultiplyIsFieldMultiplication(x: bv8, y: bv8)
    ensures Multiply(x, y) == Mul(x, y) <==> x == 0 || y < 0x20
  {
    hide *;
    var x5 := TimesX(TimesX(TimesX(TimesX(TimesX(x)))));
    MultiplyLowBits(x, y);
    HighBits(y);
    MulThreeBits(x5, y >> 5);
    AddIsZero(Multiply(x, y), Mul(x5, y >> 5));
    TimesXIsZero(x);
    TimesXIsZero(TimesX(x));
    TimesXIsZero(TimesX(TimesX(x)));
    TimesXIsZero(TimesX(TimesX(TimesX(x))));
    TimesXIsZero(TimesX(TimesX(TimesX(TimesX(x)))));
  }

  /** MixColumns in aes.c: one doubling per byte, and the sum of the column shared by all four bytes. */
  function SharedMix(a: bv8, b: bv8, all: bv8): bv8 {
    Add(a, Add(Xtime(Add(a, b)), all))
  }

  lemma SharedMixRegrouped(a: bv8, b: bv8, ta: bv8, tb: bv8, rest: bv8)
    ensures Add(a, Add(Add(ta, tb), Add(Add(a, b), rest))) == Add(Add(ta, Add(b, tb)), rest)
  {
    hide Add;
    AddAssociates(Add(ta, tb), Add(a, b), rest);
    AddLaws(ta, tb, a, b);
    AddAssociates(a, Add(Add(ta, a), Add(tb, b)), rest);
    AddAssociates(a, Add(ta, a), Add(tb, b));
    AddLaws(ta, a, 0, 0);
    AddAssociates(a, a, ta);
    AddSelf(a);
    AddLaws(0, ta, 0, 0);
    AddLaws(ta, 0, 0, 0);
    AddLaws(tb, b, 0, 0);
  }

  lemma SharedMixIsMixByte(a: bv8, b: bv8, c: bv8, d: bv8)
    ensures SharedMix(a, b, Add(Add(Add(a, b), c), d)) == MixByte(a, b, c, d)
  {
    hide Add, TimesX, Mul, Xtime;
    XtimeIsTimesX(Add(a, b));
    TimesXAdd(a, b);
    MulSmall(a);
    MulSmall(b);
    MulSmall(c);
    MulSmall(d);
    AddAssociates(Add(a, b), c, d);
    SharedMixRegrouped(a, b, TimesX(a), TimesX(b), Add(c, d));
  }

  /** The four bytes of a mixed column, as aes.c computes them. */
  lemma SharedMixColumn(a: bv8, b: bv8, c: bv8, d: bv8)
    ensures var all := Add(Add(Add(a, b), c), d);
      && SharedMix(a, b, all) == MixByte(a, b, c, d)
      && SharedMix(b, c, all) == MixByte(b, c, d, a)
      && SharedMix(c, d, all) == MixByte(c, d, a, b)
      && SharedMix(d, a, all) == MixByte(d, a, b, c)
  {
    hide Add, MixByte, SharedMix;
    SharedMixIsMixByte(a, b, c, d);
    SharedMixIsMixByte(b, c, d, a);
    SharedMixIsMixByte(c, d, a, b);
    SharedMixIsMixByte(d, a, b, c);
    AddAssociates(Add(a, b), c, d);
    AddAssociates(Add(b, c), d, a);
    AddAssociates(Add(c, d), a, b);
    AddAssociates(Add(d, a), b, c);
    RotateSum(a, b, c, d);
  }

  lemma SumOfMultipliesIsInvMixByte(a: bv8, b: bv8, c: bv8, d: bv8)
    ensures Add(Add(Add(Multiply(a, 0x0e), Multiply(b, 0x0b)), Multiply(c, 0x0d)), Multiply(d, 0x09)) == InvMixByte(a, b, c, d)
    ensures Add(Add(Add(Multiply(d, 0x09), Multiply(a, 0x0e)), Multiply(b, 0x0b)), Multiply(c, 0x0d)) == InvMixByte(a, b, c, d)
    ensures Add(Add(Add(Multiply(c, 0x0d), Multiply(d, 0x09)), Multiply(a, 0x0e)), Multiply(b, 0x0b)) == InvMixByte(a, b, c, d)
    ensures Add(Add(Add(Multiply(b, 0x0b), Multiply(c, 0x0d)), Multiply(d, 0x09)), Multiply(a, 0x0e)) == InvMixByte(a, b, c, d)
  {
    hide Add, Mul, Multiply;
    MultiplyIsFieldMultiplication(a, 0x0e);
    MultiplyIsFieldMultiplication(b, 0x0b);
    MultiplyIsFieldMultiplication(c, 0x0d);
    MultiplyIsFieldMultiplication(d, 0x09);
    var p, q, r, s := Mul(a, 0x0e), Mul(b, 0x0b), Mul(c, 0x0d), Mul(d, 0x09);
    RotateSum(p, q, r, s);
    AddAssociates(Add(p, q), r, s);
    AddAssociates(Add(s, p), q, r);
    AddAssociates(Add(r, s), p, q);
    AddAssociates(Add(q, r), s, p);
  }
}
