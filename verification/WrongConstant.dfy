/** A modulus for which s_brmu (imath.c:3223) computes a wrong constant, and what mp_int_exptmod
    (imath.c:1335) makes of it.
 */
module WrongConstant {
  import opened Digits
  import opened Karatsuba
  import opened MpInts
  import opened Shifts
  import opened Quotients
  import opened Division
  import opened Barrett
  import opened ModExp

  /** 2^64 - 2^32 + 1. */
  const BAD_MODULUS: nat := (RADIX - 1) * RADIX + 1

  const BAD_CONSTANT: nat := RADIX * RADIX * RADIX + 2 * RADIX - 2

  lemma FivePowers()
    ensures Pow(0) == 1 && Pow(1) == RADIX && Pow(2) == RADIX * RADIX
    ensures Pow(3) == RADIX * RADIX * RADIX && Pow(4) == RADIX * RADIX * RADIX * RADIX
    ensures Pow(5) == RADIX * RADIX * RADIX * RADIX * RADIX
  {
    PowUp(1);
    PowUp(2);
    PowUp(3);
    PowUp(4);
    PowUp(5);
  }

  lemma BadLengths()
    ensures Length(BAD_MODULUS) == 2 && Length(Pow(4)) == 5 && Length(BAD_CONSTANT) == 4 && Scale(BAD_MODULUS) == 1
  {
    hide Pow, Length;
    FivePowers();
    LengthBounds(BAD_MODULUS, 1);
    LengthBounds(BAD_MODULUS, 2);
    LengthBounds(Pow(4), 4);
    LengthBounds(Pow(4), 5);
    LengthBounds(BAD_CONSTANT, 3);
    LengthBounds(BAD_CONSTANT, 4);
    BadScale();
  }

  lemma BadScale()
    ensures Scale(BAD_MODULUS) == 1
  {
    DivUnique(BAD_MODULUS, RADIX, RADIX - 1, 1);
    assert TopOf(BAD_MODULUS) == RADIX - 1;
    Units();
  }

  /** The partial remainders of B^4 by the modulus: the last one is misjudged. */
  lemma BadPartials()
    ensures TopAt(BAD_MODULUS, 2) == (RADIX - 1) * (RADIX * RADIX)
    ensures PartialAt(Pow(4), BAD_MODULUS, 4) == 1 && PartialAt(Pow(4), BAD_MODULUS, 3) == RADIX
    ensures PartialAt(Pow(4), BAD_MODULUS, 2) == RADIX * RADIX
    ensures PartialAt(Pow(4), BAD_MODULUS, 1) == (RADIX - 1) * RADIX
    ensures PartialAt(Pow(4), BAD_MODULUS, 0) == (RADIX - 1) * (RADIX * RADIX)
  {
    FivePowers();
    hide Pow;
    var b, r := RADIX * BAD_MODULUS, RADIX;
    DivUnique(BAD_MODULUS, r, r - 1, 1);
    DivUnique(Pow(4), Pow(4), 1, 0);
    DivUnique(Pow(4), Pow(3), r, 0);
    DivUnique(Pow(4), Pow(2), r * r, 0);
    DivUnique(Pow(4), Pow(1), r * r * r, 0);
    DivUnique(Pow(4), Pow(0), Pow(4), 0);
    DivUnique(1, b, 0, 1);
    DivUnique(r, b, 0, r);
    DivUnique(r * r, b, 0, r * r);
    DivUnique(r * r * r, b, 1, (r - 1) * r);
    DivUnique(Pow(4), b, r, (r - 1) * (r * r));
  }

  /** The digits pushed: 0, 1, 0, and 1 and 2^32 - 2 for the last position. */
  lemma BadQuotient()
    ensures Quotient(Pow(4), BAD_MODULUS, 2) == BAD_CONSTANT
  {
    BadLengths();
    BadPartials();
    FivePowers();
    hide Pow, Length, PartialAt, TopAt;
    var a, b, r := Pow(4), BAD_MODULUS, RADIX;
    var top := TopAt(b, 2);
    DivUnique(1, b, 0, 1);
    DivUnique(r, b, 0, r);
    DivUnique(r * r, b, 1, r - 1);
    DivUnique((r - 1) * r, b, 0, (r - 1) * r);
    DivUnique(0, b, 0, 0);
    DivUnique(top - b, b, r - 2, (r - 1) * (r - 1));
    assert QuotientFrom(a, b, 2, 5, 5) == 0;
    assert QuotientFrom(a, b, 2, 5, 4) == 0;
    assert QuotientFrom(a, b, 2, 5, 3) == 0;
    assert QuotientFrom(a, b, 2, 5, 2) == 1;
    assert QuotientFrom(a, b, 2, 5, 1) == r;
    assert PushedDigits(top, b, top) == r + (r - 2);
    assert QuotientFrom(a, b, 2, 5, 0) == r * (r * r) + (r + (r - 2));
  }

  lemma BadDelivered()
    ensures Constant(BAD_MODULUS) == BAD_CONSTANT
  {
    hide Pow, Length, Quotient, Scale, PowerOfTwo, Pow2;
    BadLengths();
    FivePowers();
    BadQuotient();
    BadNoPower();
    assert BAD_MODULUS * 1 == BAD_MODULUS && Pow(4) * 1 == Pow(4);
  }

  lemma BadNoPower()
    ensures !PowerOfTwo(BAD_MODULUS)
  {
    hide PowerOfTwo, Pow2;
    OddNotPower(BAD_MODULUS, 0);
    Units();
  }

  /** The constant is not found for every modulus: for this one it comes out too large. */
  lemma ConstantWrong()
    ensures !ConstantFound(BAD_MODULUS) && Constant(BAD_MODULUS) > Pow(2 * Length(BAD_MODULUS)) / BAD_MODULUS
  {
    BadDelivered();
    BadLengths();
    FivePowers();
    hide Pow, Length, Constant, ConstantFound;
    var q := RADIX * RADIX + RADIX - 1;
    DivUnique(Pow(4), BAD_MODULUS, q, RADIX * RADIX * RADIX * RADIX - q * BAD_MODULUS);
    ConstantExact(BAD_MODULUS);
  }

  /** One reduction modulo it, from the leading part e, the guess g and the difference -d. */
  lemma OneReduction(x: nat, e: nat, g: nat, d: nat)
    requires x < Pow(4) && e == x / RADIX && g == (e * BAD_CONSTANT) / Pow(3) && Pow(2) <= d < Pow(3)
    requires (g * BAD_MODULUS) % Pow(3) - x % Pow(3) == d && Pow(3) - d >= 2 * BAD_MODULUS
    ensures Reduction(x, BAD_MODULUS, BAD_CONSTANT) == Pow(3) - d - 2 * BAD_MODULUS
    ensures ReductionFits(x, BAD_MODULUS, BAD_CONSTANT, 64)
  {
    BadLengths();
    FivePowers();
    hide Pow, Length, Room;
    LengthBounds(d, 2);
    LengthBounds(d, 3);
    assert Leading(x, BAD_MODULUS) == e && Guess(x, BAD_MODULUS, BAD_CONSTANT) == g;
    ReductionSmall(x, e, g);
    DifferenceOf(x, g, d);
  }

  lemma DifferenceOf(x: nat, g: nat, d: nat)
    requires Guess(x, BAD_MODULUS, BAD_CONSTANT) == g && Length(BAD_MODULUS) == 2 && d > 0
    requires (g * BAD_MODULUS) % Pow(3) - x % Pow(3) == d
    ensures Pinned(Difference(x, BAD_MODULUS, BAD_CONSTANT)) == Pow(Length(d)) - d
  {
    hide Pow, Length, Guess;
    BelowLength(d);
  }

  lemma ReductionSmall(x: nat, e: nat, g: nat)
    requires x < Pow(4) && e == x / RADIX && g == (e * BAD_CONSTANT) / Pow(3)
    requires Leading(x, BAD_MODULUS) == e && Guess(x, BAD_MODULUS, BAD_CONSTANT) == g
    ensures ReductionFits(x, BAD_MODULUS, BAD_CONSTANT, 64)
  {
    BadLengths();
    hide Pow, Length, Room, Leading, Guess;
    DivNat(x, RADIX);
    LengthBounds(e, 4);
    GuessShort(e, g);
    LengthBounds(g, 5);
    SmallRoom(Length(e), Length(BAD_CONSTANT));
    SmallRoom(Length(g), Length(BAD_MODULUS));
  }

  lemma GuessShort(e: nat, g: nat)
    requires e < Pow(4) && g == (e * BAD_CONSTANT) / Pow(3)
    ensures g < Pow(5)
  {
    FivePowers();
    hide Pow;
    var x := e * BAD_CONSTANT;
    MulMono(e + 1, Pow(4), BAD_CONSTANT);
    assert g * Pow(3) <= x < Pow(3) * Pow(5);
    QuotientBelow(g, Pow(3), x, Pow(5));
  }

  lemma SmallRoom(a: nat, b: nat)
    requires a <= 8 && b <= 8
    ensures Room(MULTIPLY_THRESHOLD, a, b) <= 64 && SqrRoom(MULTIPLY_THRESHOLD, a) <= 64
  {
  }

  /** The square of -1, and what becomes of it. */
  lemma BadSquare()
    ensures var y := (RADIX - 1) * RADIX;
            && Reduction(y * y, BAD_MODULUS, BAD_CONSTANT) == 10 * (RADIX * RADIX) - 7 * RADIX + 4
            && ReductionFits(y * y, BAD_MODULUS, BAD_CONSTANT, 64)
  {
    FivePowers();
    hide Pow;
    var r, y := RADIX, (RADIX - 1) * RADIX;
    var x := y * y;
    var e, g := r * r * r - 2 * (r * r) + r, r * r * r - 2 * (r * r) + 3 * r - 6;
    DivUnique(x, r, e, 0);
    DivUnique(e * BAD_CONSTANT, Pow(3), g, e * BAD_CONSTANT - g * Pow(3));
    var xr, gr := r * r, r * r * r - 11 * (r * r) + 9 * r - 6;
    DivUnique(x, Pow(3), r - 2, xr);
    DivUnique(g * BAD_MODULUS, Pow(3), r * r - 3 * r + 5, gr);
    LengthBounds(x, 4);
    OneReduction(x, e, g, r * r * r - 12 * (r * r) + 9 * r - 6);
  }

  lemma BadResult()
    ensures var x := 10 * (RADIX * RADIX) - 7 * RADIX + 4;
            && Reduction(x, BAD_MODULUS, BAD_CONSTANT) == 25 * (RADIX * RADIX) - 22 * RADIX + 9
            && ReductionFits(x, BAD_MODULUS, BAD_CONSTANT, 64)
  {
    FivePowers();
    hide Pow;
    var r := RADIX;
    var x, g := 10 * (r * r) - 7 * r + 4, 10 * r - 7;
    DivUnique(x, r, g, 4);
    DivUnique(g * BAD_CONSTANT, Pow(3), g, g * (2 * r - 2));
    DivUnique(x, Pow(3), 0, x);
    DivUnique(g * BAD_MODULUS, Pow(3), 9, r * r * r - 17 * (r * r) + 17 * r - 7);
    LengthBounds(x, 4);
    OneReduction(x, g, g, r * r * r - 27 * (r * r) + 24 * r - 11);
  }

  /** Modulo 2^64 - 2^32 + 1 the square of -1 does not come out as 1, nor as a residue at all. */
  lemma ExptWrong()
    ensures var (m, y) := (BAD_MODULUS, BAD_MODULUS - 1);
            && ExptInside(y, 2, m) && Exp(y, 2) % m == 1
            && Delivery(y, 2, m) == 25 * (RADIX * RADIX) - 22 * RADIX + 9 > m
  {
    BadDelivered();
    BadLengths();
    BadSquare();
    BadResult();
    FivePowers();
    hide Pow, Length, Constant, Reduction, ReductionFits, Room, SqrRoom;
    var m, y := BAD_MODULUS, BAD_MODULUS - 1;
    DivUnique(y, m, 0, y);
    ShortInside(Pow(4), m);
    LengthBounds(y, 2);
    LengthBounds(1, 1);
    LengthBounds(10 * (RADIX * RADIX) - 7 * RADIX + 4, 3);
    SmallRoom(Length(y), Length(y));
    SmallRoom(Length(1), Length(10 * (RADIX * RADIX) - 7 * RADIX + 4));
    ExptParts(y, 2, m);
    SquareRun(y, m, BAD_CONSTANT);
    assert Exp(y, 1) == y * Exp(y, 0) && Exp(y, 2) == y * Exp(y, 1);
    DivUnique(y * y, m, m - 2, 1);
  }

  /** The run for the exponent 2. */
  lemma SquareRun(a: nat, m: nat, mu: nat)
    ensures var x := Reduction(a * a, m, mu);
            && Powered(2, 1, a, m, mu) == Reduction(1 * x, m, mu)
            && (SquareFits(a, m, mu, 64) && FactorsFit(1, x, m, mu, 64) ==> RunFits(2, 1, a, m, mu, 64))
  {
    hide Reduction, SquareFits, FactorsFit;
    var x := Reduction(a * a, m, mu);
    assert Powered(1, 1, x, m, mu) == Reduction(1 * x, m, mu);
    assert FactorsFit(1, x, m, mu, 64) ==> RunFits(1, 1, x, m, mu, 64);
  }
}
