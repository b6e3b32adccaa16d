/** Binary gcd and its extended form (imath.c:1535, imath.c:1630). */
module Gcds {
  import opened Digits
  import opened DigitLoops
  import opened MpInts
  import opened Shifts

  // ---- The mathematical gcd ----

  ghost function Gcd(a: nat, b: nat): nat
    decreases b
  {
    if b == 0 then a else Gcd(b, a % b)
  }

  ghost predicate Divides(d: nat, a: int) {
    d > 0 && a % d == 0
  }

  lemma MultipleDivides(d: nat, k: int)
    requires d > 0
    ensures Divides(d, k * d)
  {
    DivUnique(k * d, d, k, 0);
  }

  lemma DividesCombine(d: nat, a: int, b: int, x: int, y: int)
    requires Divides(d, a) && Divides(d, b)
    ensures Divides(d, x * a + y * b)
  {
    var i, j := a / d, b / d;
    MulAssoc(x, i, d);
    MulAssoc(y, j, d);
    MulDist(x * i, y * j, d);
    MultipleDivides(d, x * i + y * j);
  }

  lemma {:induction false} GcdDivides(a: nat, b: nat)
    requires a > 0 || b > 0
    ensures Divides(Gcd(a, b), a) && Divides(Gcd(a, b), b)
    decreases b
  {
    if b == 0 {
      DivUnique(a, a, 1, 0);
      DivUnique(0, a, 0, 0);
    } else {
      var q, r := a / b, a % b;
      GcdDivides(b, r);
      assert q * b + 1 * r == a;
      DividesCombine(Gcd(b, r), b, r, q, 1);
    }
  }

  lemma RemainderOf(a: nat, b: nat)
    requires b > 0
    ensures a % b == 1 * a + (-(a / b)) * b
  {
  }

  lemma {:induction false} GcdGreatest(a: nat, b: nat, d: nat)
    requires Divides(d, a) && Divides(d, b)
    ensures Divides(d, Gcd(a, b))
    decreases b
  {
    if b != 0 {
      hide Divides;
      RemainderOf(a, b);
      DividesCombine(d, a, b, 1, -(a / b));
      GcdGreatest(b, a % b, d);
    }
  }

  lemma DividesLe(d: nat, a: nat)
    requires Divides(d, a) && a > 0
    ensures d <= a
  {
    if d > a {
      DivUnique(a, d, 0, a);
    }
  }

  /** Pairs with the same common divisors have the same gcd. */
  lemma GcdSame(a: nat, b: nat, c: nat, d: nat)
    requires (a > 0 || b > 0) && (c > 0 || d > 0)
    requires forall e :: Divides(e, a) && Divides(e, b) <==> Divides(e, c) && Divides(e, d)
    ensures Gcd(a, b) == Gcd(c, d)
  {
    var g, h := Gcd(a, b), Gcd(c, d);
    GcdDivides(a, b);
    GcdDivides(c, d);
    GcdGreatest(a, b, h);
    GcdGreatest(c, d, g);
    DividesLe(g, h);
    DividesLe(h, g);
  }

  lemma GcdSwap(a: nat, b: nat)
    requires a > 0 || b > 0
    ensures Gcd(a, b) == Gcd(b, a)
  {
    GcdSame(a, b, b, a);
  }

  lemma GcdSub(a: nat, b: nat)
    requires a >= b > 0
    ensures Gcd(a, b) == Gcd(a - b, b)
  {
    forall e
      ensures Divides(e, a) && Divides(e, b) <==> Divides(e, a - b) && Divides(e, b)
    {
      if Divides(e, a) && Divides(e, b) {
        DividesCombine(e, a, b, 1, -1);
      }
      if Divides(e, a - b) && Divides(e, b) {
        DividesCombine(e, a - b, b, 1, 1);
      }
    }
    GcdSame(a, b, a - b, b);
  }

  /** A factor of 2 of one number does not matter when the other is odd. */
  lemma GcdHalf(a: nat, b: nat)
    requires b % 2 == 1
    ensures Gcd(2 * a, b) == Gcd(a, b)
  {
    forall e
      ensures Divides(e, 2 * a) && Divides(e, b) <==> Divides(e, a) && Divides(e, b)
    {
      if Divides(e, a) {
        DividesCombine(e, a, 0, 2, 0);
      }
      if Divides(e, 2 * a) && Divides(e, b) {
        OddFactor(e, a, b);
      }
    }
    GcdSame(2 * a, b, a, b);
  }

  lemma OddFactor(e: nat, a: nat, b: nat)
    requires b % 2 == 1 && Divides(e, 2 * a) && Divides(e, b)
    ensures Divides(e, a)
  {
    var i, j := (2 * a) / e, b / e;
    assert 2 * a == i * e && b == j * e;
    ProductParity(j, e);
    ProductParity(i, e);
    var h := i / 2;
    assert i == 2 * h;
    MulAssoc(2, h, e);
    MultipleDivides(e, h);
  }

  lemma ProductParity(x: int, y: int)
    ensures (x * y) % 2 == 1 <==> x % 2 == 1 && y % 2 == 1
  {
    var h, k := x / 2, y / 2;
    assert x == 2 * h + x % 2;
    MulDist(2 * h, x % 2, y);
    MulAssoc(2, h, y);
    assert x * y == 2 * (h * y) + (x % 2) * y;
  }

  lemma {:induction false} GcdPow2(a: nat, b: nat, k: nat)
    requires b % 2 == 1
    ensures Gcd(a * Pow2(k), b) == Gcd(a, b)
  {
    if k > 0 {
      GcdPow2(a, b, k - 1);
      GcdHalf(a * Pow2(k - 1), b);
      MulComm(a, Pow2(k));
      MulComm(a, Pow2(k - 1));
      MulAssoc(2, Pow2(k - 1), a);
    }
  }

  lemma {:induction false} GcdScale(a: nat, b: nat, p: nat)
    requires p > 0
    ensures Gcd(a * p, b * p) == Gcd(a, b) * p
    decreases b
  {
    if b > 0 {
      ScaledDivision(a, b, p);
      GcdScale(b, a % b, p);
    }
  }

  // ---- Parity and powers of two in mp_int ----

  /** mp_int_is_odd. */
  method IsOdd(z: MpInt) returns (r: bool)
    requires z.Valid()
    ensures r <==> z.Mag() % 2 == 1
  {
    hide Val;
    HeadMod(Run(z.digits, 0, z.used), 2, RADIX / 2);
    r := z.digits[0] % 2 == 1;
  }

  /** A power of two that divides m keeps dividing it when it is made smaller. */
  lemma SmallerPower(m: nat, j: nat, k: nat)
    requires k <= j && m == Shr(m, j) * Pow2(j)
    ensures m == Shr(m, k) * Pow2(k)
    ensures k < j ==> Shr(m, k) % 2 == 0
  {
    var h := Shr(m, j) * Pow2(j - k);
    Pow2Add(j - k, k);
    MulAssoc(Shr(m, j), Pow2(j - k), Pow2(k));
    DivUnique(m, Pow2(k), h, 0);
    if k < j {
      MulAssoc(Shr(m, j), 2, Pow2(j - k - 1));
      MulComm(Shr(m, j), 2);
      MulAssoc(2, Shr(m, j), Pow2(j - k - 1));
    }
  }

  /** Lines 1566-1573: the common power of two is divided out, so one of the two is odd. */
  method DivideOutTwos(u: MpInt, v: MpInt) returns (k: nat)
    requires u.Valid() && v.Valid() && Apart(u, v) && !u.negative && !v.negative
    requires u.Mag() > 0 && v.Mag() > 0
    modifies u, u.digits, v, v.digits
    ensures u.Valid() && v.Valid() && !u.negative && !v.negative
    ensures u.digits == old(u.digits) && v.digits == old(v.digits)
    ensures old(u.Mag()) == u.Mag() * Pow2(k) && old(v.Mag()) == v.Mag() * Pow2(k)
    ensures u.Mag() > 0 && v.Mag() > 0
    ensures u.Mag() % 2 == 1 || v.Mag() % 2 == 1
  {
    hide Val, Run, Canonical, Pow2, Shr;
    var j := DP2K(u);
    var i := DP2K(v);
    k := if j < i then j else i;
    SmallerPower(u.Mag(), j, k);
    SmallerPower(v.Mag(), i, k);
    PositiveFactor(Shr(u.Mag(), k), Pow2(k));
    PositiveFactor(Shr(v.Mag(), k), Pow2(k));
    QDiv(u, k);
    QDiv(v, k);
  }

  lemma PositiveFactor(x: nat, p: nat)
    ensures x * p > 0 ==> x > 0
  {
  }

  // ---- mp_int_gcd ----

  function AbsVal(x: int): nat {
    if x < 0 then -x else x
  }

  /** What the loop keeps: u and v stand for the answer g, and t is the next difference to be
      made odd.  At first t is one of the two, the other being odd. */
  ghost predicate GcdState(u: int, v: int, t: int, first: bool, g: nat) {
    && u > 0 && v > 0 && t != 0 && Gcd(u, v) == g
    && (first ==> (t == -v && u % 2 == 1) || (t == u && v % 2 == 1))
    && (!first ==> t == u - v && u % 2 == 1 && v % 2 == 1)
  }

  /** Replacing the larger number by the odd part of t keeps the gcd and makes both odd. */
  lemma GcdStep(u: int, v: int, t: int, first: bool, g: nat, k: nat, odd: nat)
    requires GcdState(u, v, t, first, g)
    requires AbsVal(t) == odd * Pow2(k) && odd % 2 == 1
    ensures t > 0 ==> Gcd(odd, v) == g && v % 2 == 1 && odd <= u && (!first ==> odd < u)
    ensures t < 0 ==> Gcd(u, odd) == g && u % 2 == 1 && odd <= v && (!first ==> odd < v)
  {
    MulMono(1, Pow2(k), odd);
    if t > 0 {
      GcdPow2(odd, v, k);
      if !first {
        GcdSub(u, v);
      }
    } else {
      GcdPow2(odd, u, k);
      GcdSwap(u, v);
      GcdSwap(u, odd);
      if !first {
        GcdSub(v, u);
      }
    }
  }

  /** mp_int_gcd (imath.c:1535). */
  method MpGcd(a: MpInt, b: MpInt, c: MpInt) returns (res: MpResult)
    requires a.Valid() && b.Valid() && c.Valid() && SameOrApart(a, c) && SameOrApart(b, c)
    modifies c, c.digits
    ensures c.Valid() && (c.digits == old(c.digits) || fresh(c.digits))
    ensures res == MP_UNDEF <==> old(a.Mag()) == 0 && old(b.Mag()) == 0
    ensures res == MP_OK ==> !c.negative && c.Mag() == Gcd(old(a.Mag()), old(b.Mag()))
  {
    hide Val, Run, Canonical, Pow2;
    var ca := a.CmpZ();
    var cb := b.CmpZ();
    if ca == 0 && cb == 0 {
      return MP_UNDEF;
    } else if ca == 0 {
      GcdZero(b.Mag());
      Abs(b, c);
      return MP_OK;
    } else if cb == 0 {
      GcdZero(a.Mag());
      Abs(a, c);
      return MP_OK;
    }
    var u, k := NonzeroGcd(a, b);
    Abs(u, c);
    QMul(c, k);
    res := MP_OK;
  }

  /** Lines 1556-1606: the gcd of the numbers with the common power of two left out. */
  method NonzeroGcd(a: MpInt, b: MpInt) returns (u: MpInt, k: nat)
    requires a.Valid() && b.Valid() && a.Mag() > 0 && b.Mag() > 0
    ensures fresh(u) && fresh(u.digits) && u.Valid()
    ensures u.Mag() * Pow2(k) == Gcd(a.Mag(), b.Mag())
  {
    hide Val, Run, Canonical, Pow2, Gcd;
    var t := new MpInt(DEFAULT_PRECISION);
    u := InitCopy(a);
    var v := InitCopy(b);
    u.negative, v.negative := false, false;
    k := DivideOutTwos(u, v);
    GcdScale(u.Mag(), v.Mag(), Pow2(k));
    OddGcd(u, v, t);
  }

  lemma GcdZero(a: nat)
    requires a > 0
    ensures Gcd(0, a) == a && Gcd(a, 0) == a
  {
    GcdSwap(0, a);
  }

  /** Lines 1575-1606: the loop of Stein's algorithm. */
  method OddGcd(u: MpInt, v: MpInt, t: MpInt)
    requires u.Valid() && v.Valid() && t.Valid() && Apart(u, v) && Apart(u, t) && Apart(v, t)
    requires !u.negative && !v.negative && u.Mag() > 0 && v.Mag() > 0
    requires u.Mag() % 2 == 1 || v.Mag() % 2 == 1
    modifies u, u.digits, v, v.digits, t, t.digits
    ensures u.Valid() && (u.digits == old(u.digits) || fresh(u.digits))
    ensures u.Mag() == Gcd(old(u.Mag()), old(v.Mag()))
  {
    hide Val, Run, Canonical, Pow2, Shr, Gcd;
    ghost var g, first := Gcd(u.Mag(), v.Mag()), true;
    var odd := IsOdd(u);
    if odd {
      Neg(v, t);
    } else {
      Copy(u, t);
    }
    var done := false;
    while !done
      invariant Trio(u, v, t)
      invariant u.digits == old(u.digits) || fresh(u.digits)
      invariant v.digits == old(v.digits) || fresh(v.digits)
      invariant t.digits == old(t.digits) || fresh(t.digits)
      invariant if done then u.Mag() == g else GcdState(u.Value(), v.Value(), t.Value(), first, g)
      decreases if done then 0 else u.Value() + v.Value(), first && !done, !done
    {
      done := GcdRound(u, v, t, first, g);
      first := false;
    }
  }

  /** Lines 1588-1605: one round of the loop. */
  method GcdRound(u: MpInt, v: MpInt, t: MpInt, ghost first: bool, ghost g: nat) returns (done: bool)
    requires Trio(u, v, t) && GcdState(u.Value(), v.Value(), t.Value(), first, g)
    modifies u, u.digits, v, v.digits, t, t.digits
    ensures Trio(u, v, t)
    ensures u.digits == old(u.digits) || fresh(u.digits)
    ensures v.digits == old(v.digits) || fresh(v.digits)
    ensures t.digits == old(t.digits) || fresh(t.digits)
    ensures done ==> u.Mag() == g
    ensures !done ==> GcdState(u.Value(), v.Value(), t.Value(), false, g)
    ensures u.Value() + v.Value() <= old(u.Value() + v.Value())
    ensures !first ==> u.Value() + v.Value() < old(u.Value() + v.Value())
  {
    hide Val, Run, Canonical, Gcd;
    ReplaceByOddPart(u, v, t, first, g);
    Sub(u, v, t);
    var cmp := t.CmpZ();
    done := cmp == 0;
    if done {
      GcdEqual(u.Mag());
    }
  }

  /** Lines 1588-1599: the odd part of t takes the place of the number it came from. */
  method ReplaceByOddPart(u: MpInt, v: MpInt, t: MpInt, ghost first: bool, ghost g: nat)
    requires Trio(u, v, t) && GcdState(u.Value(), v.Value(), t.Value(), first, g)
    modifies u, u.digits, v, v.digits, t, t.digits
    ensures Trio(u, v, t)
    ensures u.digits == old(u.digits) || fresh(u.digits)
    ensures v.digits == old(v.digits) || fresh(v.digits)
    ensures t.digits == old(t.digits) || fresh(t.digits)
    ensures u.Value() > 0 && v.Value() > 0 && u.Value() % 2 == 1 && v.Value() % 2 == 1
    ensures Gcd(u.Value(), v.Value()) == g
    ensures u.Value() + v.Value() <= old(u.Value() + v.Value())
    ensures !first ==> u.Value() + v.Value() < old(u.Value() + v.Value())
  {
    hide Val, Run, Canonical, Pow2, Shr, Gcd;
    var k := DP2K(t);
    GcdStep(u.Value(), v.Value(), t.Value(), first, g, k, Shr(t.Mag(), k));
    QDiv(t, k);
    var cmp := t.CmpZ();
    if cmp > 0 {
      Copy(t, u);
    } else {
      Neg(t, v);
    }
  }

  ghost predicate Trio(u: MpInt, v: MpInt, t: MpInt)
    reads u, u.digits, v, v.digits, t, t.digits
  {
    u.Valid() && v.Valid() && t.Valid() && Apart(u, v) && Apart(u, t) && Apart(v, t)
  }

  lemma GcdEqual(a: nat)
    requires a > 0
    ensures Gcd(a, a) == a
  {
    GcdSub(a, a);
    GcdZero(a);
  }
}
