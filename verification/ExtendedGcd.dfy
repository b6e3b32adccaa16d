/** Extended binary gcd (imath.c:1630): the matrix operations are tracked beside the numbers. */
module ExtendedGcd {
  import opened Digits
  import opened DigitLoops
  import opened MpInts
  import opened Shifts
  import opened Gcds
  import opened GcdRows

  /** s_qdiv by one bit of an even number, whatever its sign. */
  method Halve(z: MpInt)
    requires z.Valid() && z.Mag() % 2 == 0
    modifies z, z.digits
    ensures z.Valid() && z.digits == old(z.digits)
    ensures z.Value() == old(z.Value()) / 2
    ensures !old(z.negative) ==> !z.negative
  {
    hide Val, Run, Canonical;
    ShrOne(z.Mag());
    QDiv(z, 1);
  }

  lemma ShrOne(m: nat)
    ensures Shr(m, 1) == m / 2
  {
    assert Pow2(1) == 2 * Pow2(0);
  }

  /** The objects of one row of the computation. */
  ghost predicate Row(u: MpInt, a: MpInt, b: MpInt, ou: MpInt, ov: MpInt)
    reads u, u.digits, a, a.digits, b, b.digits, ou, ou.digits, ov, ov.digits
  {
    && u.Valid() && a.Valid() && b.Valid() && ou.Valid() && ov.Valid()
    && Apart(u, a) && Apart(u, b) && Apart(u, ou) && Apart(u, ov)
    && Apart(a, b) && Apart(a, ou) && Apart(a, ov) && Apart(b, ou) && Apart(b, ov)
    && !u.negative
    && Combines(a.Value(), b.Value(), ou.Value(), ov.Value(), u.Value())
    && (ou.Value() % 2 == 1 || ov.Value() % 2 == 1)
  }

  /** Lines 1696-1710: u is halved while it is even. */
  method HalveRow(u: MpInt, a: MpInt, b: MpInt, ou: MpInt, ov: MpInt)
    requires Row(u, a, b, ou, ov) && u.Value() > 0
    modifies u, u.digits, a, a.digits, b, b.digits
    ensures Row(u, a, b, ou, ov)
    ensures u.digits == old(u.digits)
    ensures a.digits == old(a.digits) || fresh(a.digits)
    ensures b.digits == old(b.digits) || fresh(b.digits)
    ensures 0 < u.Value() <= old(u.Value()) && u.Value() % 2 == 1
    ensures forall w: nat :: w % 2 == 1 ==> Gcd(u.Value(), w) == Gcd(old(u.Value()), w)
    ensures old(u.Value()) % 2 == 1 ==> u.Value() == old(u.Value())
    ensures (u.Value(), a.Value(), b.Value())
         == Halved(old(u.Value()), old(a.Value()), old(b.Value()), ou.Value(), ov.Value())
  {
    hide Val, Run, Canonical, Gcd, Combines, HalvedOnce;
    ghost var h := Halved(u.Value(), a.Value(), b.Value(), ou.Value(), ov.Value());
    var odd := IsOdd(u);
    while !odd
      invariant Row(u, a, b, ou, ov) && u.digits == old(u.digits)
      invariant a.digits == old(a.digits) || fresh(a.digits)
      invariant b.digits == old(b.digits) || fresh(b.digits)
      invariant 0 < u.Value() <= old(u.Value())
      invariant odd <==> u.Value() % 2 == 1
      invariant forall w: nat :: w % 2 == 1 ==> Gcd(u.Value(), w) == Gcd(old(u.Value()), w)
      invariant old(u.Value()) % 2 == 1 ==> u.Value() == old(u.Value())
      invariant Halved(u.Value(), a.Value(), b.Value(), ou.Value(), ov.Value()) == h
      decreases u.Value()
    {
      HalveOnce(u, a, b, ou, ov);
      odd := IsOdd(u);
    }
  }

  method HalveOnce(u: MpInt, a: MpInt, b: MpInt, ou: MpInt, ov: MpInt)
    requires Row(u, a, b, ou, ov) && u.Value() > 0 && u.Value() % 2 == 0
    modifies u, u.digits, a, a.digits, b, b.digits
    ensures Row(u, a, b, ou, ov)
    ensures u.digits == old(u.digits)
    ensures a.digits == old(a.digits) || fresh(a.digits)
    ensures b.digits == old(b.digits) || fresh(b.digits)
    ensures u.Value() == old(u.Value()) / 2 > 0
    ensures (u.Value(), a.Value(), b.Value())
         == HalvedOnce(old(u.Value()), old(a.Value()), old(b.Value()), ou.Value(), ov.Value())
    ensures forall w: nat :: w % 2 == 1 ==> Gcd(u.Value(), w) == Gcd(old(u.Value()), w)
  {
    hide Val, Run, Canonical, Gcd, Combines;
    ghost var vu := u.Value();
    EvenCoefficients(a, b, ou, ov, vu);
    HalfRow(a.Value(), b.Value(), ou.Value(), ov.Value(), vu);
    HalfGcds(vu / 2);
    HalveAll(u, a, b);
  }

  /** Lines 1698 and 1708-1709, the coefficients being even. */
  method HalveAll(u: MpInt, a: MpInt, b: MpInt)
    requires u.Valid() && a.Valid() && b.Valid() && Apart(u, a) && Apart(u, b) && Apart(a, b)
    requires u.Value() % 2 == 0 && a.Value() % 2 == 0 && b.Value() % 2 == 0
    modifies u, u.digits, a, a.digits, b, b.digits
    ensures u.Valid() && a.Valid() && b.Valid()
    ensures u.digits == old(u.digits) && a.digits == old(a.digits) && b.digits == old(b.digits)
    ensures u.Value() == old(u.Value()) / 2 && (!old(u.negative) ==> !u.negative)
    ensures a.Value() == old(a.Value()) / 2 && b.Value() == old(b.Value()) / 2
  {
    hide Val, Run, Canonical;
    Halve(u);
    Halve(a);
    Halve(b);
  }

  lemma HalfGcds(u: nat)
    ensures forall w: nat :: w % 2 == 1 ==> Gcd(u, w) == Gcd(2 * u, w)
  {
    hide Gcd;
    forall w: nat | w % 2 == 1
      ensures Gcd(u, w) == Gcd(2 * u, w)
    {
      GcdHalf(u, w);
    }
  }

  /** Lines 1700-1706. */
  method EvenCoefficients(a: MpInt, b: MpInt, ou: MpInt, ov: MpInt, ghost u: int)
    requires a.Valid() && b.Valid() && ou.Valid() && ov.Valid()
    requires Apart(a, b) && Apart(a, ou) && Apart(a, ov) && Apart(b, ou) && Apart(b, ov)
    requires Combines(a.Value(), b.Value(), ou.Value(), ov.Value(), u)
    requires u % 2 == 0 && (ou.Value() % 2 == 1 || ov.Value() % 2 == 1)
    modifies a, a.digits, b, b.digits
    ensures a.Valid() && b.Valid() && Apart(a, b)
    ensures a.digits == old(a.digits) || fresh(a.digits)
    ensures b.digits == old(b.digits) || fresh(b.digits)
    ensures Combines(a.Value(), b.Value(), ou.Value(), ov.Value(), u)
    ensures a.Value() % 2 == 0 && b.Value() % 2 == 0
    ensures (a.Value(), b.Value()) == Evened(old(a.Value()), old(b.Value()), ou.Value(), ov.Value())
  {
    hide Val, Run, Canonical, Combines;
    var oddA := IsOdd(a);
    var oddB := IsOdd(b);
    if oddA || oddB {
      RowParity(a.Value(), b.Value(), ou.Value(), ov.Value(), u);
      ShiftRow(a.Value(), b.Value(), ou.Value(), ov.Value(), u);
      Add(a, ov, a);
      Sub(b, ou, b);
    }
  }

  // ---- Both rows ----

  /** Both rows over the same start values, sharing nothing. */
  ghost predicate Matrix(u: MpInt, a: MpInt, b: MpInt, v: MpInt, c: MpInt, d: MpInt, ou: MpInt, ov: MpInt)
    reads u, u.digits, a, a.digits, b, b.digits, v, v.digits, c, c.digits, d, d.digits
    reads ou, ou.digits, ov, ov.digits
  {
    && Row(u, a, b, ou, ov) && Row(v, c, d, ou, ov)
    && Apart(u, v) && Apart(u, c) && Apart(u, d)
    && Apart(a, v) && Apart(a, c) && Apart(a, d)
    && Apart(b, v) && Apart(b, c) && Apart(b, d)
  }

  /** The six numbers of both rows. */
  ghost function Values(u: MpInt, a: MpInt, b: MpInt, v: MpInt, c: MpInt, d: MpInt): Rows
    requires u.Sized() && a.Sized() && b.Sized() && v.Sized() && c.Sized() && d.Sized()
    reads u, u.digits, a, a.digits, b, b.digits, v, v.digits, c, c.digits, d, d.digits
  {
    Rows(u.Value(), a.Value(), b.Value(), v.Value(), c.Value(), d.Value())
  }

  /** Lines 1728-1745: the row of the smaller number is taken off the other. */
  method SubRow(u: MpInt, a: MpInt, b: MpInt, v: MpInt, c: MpInt, d: MpInt, ou: MpInt, ov: MpInt)
    requires Matrix(u, a, b, v, c, d, ou, ov) && u.Value() >= v.Value()
    modifies u, u.digits, a, a.digits, b, b.digits
    ensures Matrix(u, a, b, v, c, d, ou, ov)
    ensures u.digits == old(u.digits) || fresh(u.digits)
    ensures a.digits == old(a.digits) || fresh(a.digits)
    ensures b.digits == old(b.digits) || fresh(b.digits)
    ensures u.Value() == old(u.Value()) - v.Value()
    ensures a.Value() == old(a.Value()) - c.Value() && b.Value() == old(b.Value()) - d.Value()
    ensures v.Value() == old(v.Value()) && c.Value() == old(c.Value()) && d.Value() == old(d.Value())
  {
    hide Val, Run, Canonical, Combines;
    SubMath(a.Value(), b.Value(), c.Value(), d.Value(), ou.Value(), ov.Value(), u.Value(), v.Value());
    Sub(u, v, u);
    assert Row(v, c, d, ou, ov);
    SubBoth(a, b, c, d);
    assert Row(v, c, d, ou, ov);
    assert Row(u, a, b, ou, ov);
  }

  /** The subtractions of the coefficients. */
  method SubBoth(a: MpInt, b: MpInt, c: MpInt, d: MpInt)
    requires a.Valid() && b.Valid() && c.Valid() && d.Valid()
    requires Apart(a, b) && Apart(a, c) && Apart(a, d) && Apart(b, c) && Apart(b, d)
    modifies a, a.digits, b, b.digits
    ensures a.Valid() && b.Valid() && Apart(a, b)
    ensures a.digits == old(a.digits) || fresh(a.digits)
    ensures b.digits == old(b.digits) || fresh(b.digits)
    ensures a.Value() == old(a.Value()) - old(c.Value()) && b.Value() == old(b.Value()) - old(d.Value())
  {
    hide Val, Run, Canonical;
    Sub(a, c, a);
    Sub(b, d, b);
  }

  method SubtractSmaller(u: MpInt, a: MpInt, b: MpInt, v: MpInt, c: MpInt, d: MpInt, ou: MpInt, ov: MpInt)
    requires Matrix(u, a, b, v, c, d, ou, ov) && u.Value() > 0 && v.Value() > 0
    modifies u, u.digits, a, a.digits, b, b.digits, v, v.digits, c, c.digits, d, d.digits
    ensures Matrix(u, a, b, v, c, d, ou, ov)
    ensures u.digits == old(u.digits) || fresh(u.digits)
    ensures a.digits == old(a.digits) || fresh(a.digits)
    ensures b.digits == old(b.digits) || fresh(b.digits)
    ensures v.digits == old(v.digits) || fresh(v.digits)
    ensures c.digits == old(c.digits) || fresh(c.digits)
    ensures d.digits == old(d.digits) || fresh(d.digits)
    ensures Values(u, a, b, v, c, d) == Reduced(old(Values(u, a, b, v, c, d)))
  {
    hide Val, Run, Canonical, Combines;
    var cmp := Compare(u, v);
    if cmp >= 0 {
      SubRow(u, a, b, v, c, d, ou, ov);
    } else {
      SubRow(v, c, d, u, a, b, ou, ov);
    }
  }

  /** Lines 1696-1726: both rows are halved until both numbers are odd. */
  method HalveRows(u: MpInt, a: MpInt, b: MpInt, v: MpInt, c: MpInt, d: MpInt, ou: MpInt, ov: MpInt, ghost g: nat)
    requires Matrix(u, a, b, v, c, d, ou, ov) && u.Value() > 0 && v.Value() > 0
    requires u.Value() % 2 == 1 || v.Value() % 2 == 1
    requires Gcd(u.Value(), v.Value()) == g
    modifies u, u.digits, a, a.digits, b, b.digits, v, v.digits, c, c.digits, d, d.digits
    ensures Matrix(u, a, b, v, c, d, ou, ov)
    ensures u.digits == old(u.digits) && v.digits == old(v.digits)
    ensures a.digits == old(a.digits) || fresh(a.digits)
    ensures b.digits == old(b.digits) || fresh(b.digits)
    ensures c.digits == old(c.digits) || fresh(c.digits)
    ensures d.digits == old(d.digits) || fresh(d.digits)
    ensures 0 < u.Value() <= old(u.Value()) && 0 < v.Value() <= old(v.Value())
    ensures u.Value() % 2 == 1 && v.Value() % 2 == 1 && Gcd(u.Value(), v.Value()) == g
    ensures Values(u, a, b, v, c, d) == BothHalved(old(Values(u, a, b, v, c, d)), ou.Value(), ov.Value())
  {
    hide Val, Run, Canonical, Combines, Gcd, Halved;
    ghost var u0, v0 := u.Value(), v.Value();
    HalveRow(u, a, b, ou, ov);
    assert Row(v, c, d, ou, ov);
    ghost var u1 := u.Value();
    HalveRow(v, c, d, ou, ov);
    assert Row(u, a, b, ou, ov);
    OddGcds(u0, v0, u1, v.Value(), g);
  }

  lemma OddGcds(u0: int, v0: int, u1: int, v1: int, g: nat)
    requires u0 > 0 && v0 > 0 && u1 > 0 && v1 > 0 && u1 % 2 == 1 && v1 % 2 == 1
    requires u0 % 2 == 1 || v0 % 2 == 1
    requires u0 % 2 == 1 ==> u1 == u0
    requires forall w: nat :: w % 2 == 1 ==> Gcd(u1, w) == Gcd(u0, w)
    requires forall w: nat :: w % 2 == 1 ==> Gcd(v1, w) == Gcd(v0, w)
    requires Gcd(u0, v0) == g
    ensures Gcd(u1, v1) == g
  {
    hide Gcd;
    GcdSwap(u1, v1);
    GcdSwap(u1, v0);
  }

  /** Lines 1695-1745: one round of the outer loop. */
  method Round(u: MpInt, a: MpInt, b: MpInt, v: MpInt, c: MpInt, d: MpInt, ou: MpInt, ov: MpInt, ghost g: nat)
    requires Matrix(u, a, b, v, c, d, ou, ov) && u.Value() > 0 && v.Value() > 0
    requires u.Value() % 2 == 1 || v.Value() % 2 == 1
    requires Gcd(u.Value(), v.Value()) == g
    modifies u, u.digits, a, a.digits, b, b.digits, v, v.digits, c, c.digits, d, d.digits
    ensures Matrix(u, a, b, v, c, d, ou, ov)
    ensures u.digits == old(u.digits) || fresh(u.digits)
    ensures a.digits == old(a.digits) || fresh(a.digits)
    ensures b.digits == old(b.digits) || fresh(b.digits)
    ensures v.digits == old(v.digits) || fresh(v.digits)
    ensures c.digits == old(c.digits) || fresh(c.digits)
    ensures d.digits == old(d.digits) || fresh(d.digits)
    ensures v.Value() > 0 && u.Value() + v.Value() < old(u.Value() + v.Value())
    ensures u.Value() == 0 ==> v.Value() == g
    ensures u.Value() > 0 ==>
              Gcd(u.Value(), v.Value()) == g && (u.Value() % 2 == 1 || v.Value() % 2 == 1)
    ensures ou.Value() == old(ou.Value()) && ov.Value() == old(ov.Value())
    ensures Values(u, a, b, v, c, d)
         == Reduced(BothHalved(old(Values(u, a, b, v, c, d)), ou.Value(), ov.Value()))
  {
    hide Val, Run, Canonical, Combines, Gcd, Halved, BothHalved;
    HalveRows(u, a, b, v, c, d, ou, ov, g);
    RoundGcd(u.Value(), v.Value());
    SubtractSmaller(u, a, b, v, c, d, ou, ov);
  }

  /** The gcd through the subtraction. */
  lemma RoundGcd(u: nat, v: nat)
    requires u > 0 && v > 0
    ensures u == v ==> Gcd(u, v) == v
    ensures u > v ==> Gcd(u - v, v) == Gcd(u, v)
    ensures u < v ==> Gcd(u, v - u) == Gcd(u, v)
  {
    hide Gcd;
    GcdSwap(u, v);
    if u == v {
      GcdEqual(u);
    } else if u > v {
      GcdSub(u, v);
    } else {
      GcdSub(v, u);
      GcdSwap(u, v - u);
    }
  }

  // ---- mp_int_egcd ----

  /** Lines 1667-1673: the temporaries A, B, C, D hold the identity matrix. */
  method NewIdentity() returns (a: MpInt, b: MpInt, c: MpInt, d: MpInt)
    ensures fresh({a, b, c, d}) && fresh({a.digits, b.digits, c.digits, d.digits})
    ensures Apart(a, b) && Apart(a, c) && Apart(a, d) && Apart(b, c) && Apart(b, d) && Apart(c, d)
    ensures a.Valid() && b.Valid() && c.Valid() && d.Valid()
    ensures a.Value() == 1 && b.Value() == 0 && c.Value() == 0 && d.Value() == 1
  {
    hide Val, Canonical;
    a := new MpInt(DEFAULT_PRECISION);
    b := new MpInt(DEFAULT_PRECISION);
    c := new MpInt(DEFAULT_PRECISION);
    d := new MpInt(DEFAULT_PRECISION);
    a.digits[0] := 1;
    d.digits[0] := 1;
    OneDigit(Run(a.digits, 0, 1));
    OneDigit(Run(d.digits, 0, 1));
  }

  /** Lines 1675-1692: the absolute values without their common power of two, twice. */
  method NewNumbers(a: MpInt, b: MpInt) returns (u: MpInt, v: MpInt, ou: MpInt, ov: MpInt, k: nat)
    requires a.Valid() && b.Valid() && a.Mag() > 0 && b.Mag() > 0
    ensures fresh({u, v, ou, ov}) && fresh({u.digits, v.digits, ou.digits, ov.digits})
    ensures Apart(u, v) && Apart(u, ou) && Apart(u, ov) && Apart(v, ou) && Apart(v, ov)
    ensures u.Valid() && v.Valid() && ou.Valid() && ov.Valid() && !u.negative && !v.negative
    ensures ou.Value() == u.Value() > 0 && ov.Value() == v.Value() > 0
    ensures u.Value() % 2 == 1 || v.Value() % 2 == 1
    ensures u.Value() * Pow2(k) == a.Mag() && v.Value() * Pow2(k) == b.Mag()
  {
    hide Val, Run, Canonical, Pow2;
    u := InitCopy(a);
    v := InitCopy(b);
    u.negative, v.negative := false, false;
    k := DivideOutTwos(u, v);
    ou := InitCopy(u);
    ov := InitCopy(v);
  }

  /** Where the rounds stand: nu and nv are the start values and g is their gcd. */
  ghost predicate Working(u: MpInt, a: MpInt, b: MpInt, v: MpInt, c: MpInt, d: MpInt, ou: MpInt, ov: MpInt,
                          nu: int, nv: int, g: nat)
    reads u, u.digits, a, a.digits, b, b.digits, v, v.digits, c, c.digits, d, d.digits
    reads ou, ou.digits, ov, ov.digits
  {
    && Matrix(u, a, b, v, c, d, ou, ov) && u.Value() >= 0 && v.Value() > 0
    && ou.Value() == nu && ov.Value() == nv && Tracked(Values(u, a, b, v, c, d), nu, nv)
    && (if u.Value() == 0 then v.Value() == g
        else Gcd(u.Value(), v.Value()) == g && (u.Value() % 2 == 1 || v.Value() % 2 == 1))
  }

  /** One round and the test that ends the loop (lines 1695-1747). */
  method RoundAndTest(u: MpInt, a: MpInt, b: MpInt, v: MpInt, c: MpInt, d: MpInt, ou: MpInt, ov: MpInt,
                      ghost nu: int, ghost nv: int, ghost g: nat) returns (done: bool)
    requires Working(u, a, b, v, c, d, ou, ov, nu, nv, g) && u.Value() > 0
    modifies u, u.digits, a, a.digits, b, b.digits, v, v.digits, c, c.digits, d, d.digits
    ensures Working(u, a, b, v, c, d, ou, ov, nu, nv, g)
    ensures u.digits == old(u.digits) || fresh(u.digits)
    ensures a.digits == old(a.digits) || fresh(a.digits)
    ensures b.digits == old(b.digits) || fresh(b.digits)
    ensures v.digits == old(v.digits) || fresh(v.digits)
    ensures c.digits == old(c.digits) || fresh(c.digits)
    ensures d.digits == old(d.digits) || fresh(d.digits)
    ensures u.Sized() && v.Sized() && (if done then u.Value() == 0 else u.Value() > 0)
    ensures u.Value() + v.Value() < old(u.Value() + v.Value())
  {
    hide Val, Run, Canonical, Combines, Gcd, Tracked, Reduced, BothHalved;
    TrackedNext(Values(u, a, b, v, c, d), nu, nv);
    Round(u, a, b, v, c, d, ou, ov, g);
    var cmp := u.CmpZ();
    done := cmp == 0;
  }

  /** Lines 1694-1766: rounds until u is zero; v is then the gcd and c, d its coefficients. */
  method Rounds(u: MpInt, a: MpInt, b: MpInt, v: MpInt, c: MpInt, d: MpInt, ou: MpInt, ov: MpInt,
                ghost nu: int, ghost nv: int, ghost g: nat)
    requires Working(u, a, b, v, c, d, ou, ov, nu, nv, g) && u.Value() > 0
    modifies u, u.digits, a, a.digits, b, b.digits, v, v.digits, c, c.digits, d, d.digits
    ensures Working(u, a, b, v, c, d, ou, ov, nu, nv, g) && u.Value() == 0
    ensures v.digits == old(v.digits) || fresh(v.digits)
    ensures c.digits == old(c.digits) || fresh(c.digits)
    ensures d.digits == old(d.digits) || fresh(d.digits)
  {
    hide Val, Run, Canonical, Working;
    var done := false;
    Positive(u, a, b, v, c, d, ou, ov, nu, nv, g);
    while !done
      invariant Working(u, a, b, v, c, d, ou, ov, nu, nv, g)
      invariant u.digits == old(u.digits) || fresh(u.digits)
      invariant a.digits == old(a.digits) || fresh(a.digits)
      invariant b.digits == old(b.digits) || fresh(b.digits)
      invariant v.digits == old(v.digits) || fresh(v.digits)
      invariant c.digits == old(c.digits) || fresh(c.digits)
      invariant d.digits == old(d.digits) || fresh(d.digits)
      invariant u.Sized() && v.Sized() && (if done then u.Value() == 0 else u.Value() > 0)
      decreases u.Value() + v.Value()
    {
      Positive(u, a, b, v, c, d, ou, ov, nu, nv, g);
      done := RoundAndTest(u, a, b, v, c, d, ou, ov, nu, nv, g);
      Positive(u, a, b, v, c, d, ou, ov, nu, nv, g);
    }
  }

  lemma Positive(u: MpInt, a: MpInt, b: MpInt, v: MpInt, c: MpInt, d: MpInt, ou: MpInt, ov: MpInt,
                 nu: int, nv: int, g: nat)
    requires Working(u, a, b, v, c, d, ou, ov, nu, nv, g)
    ensures u.Sized() && v.Sized() && u.Value() >= 0 && v.Value() > 0
  {
  }

  /** Lines 1667-1673: the matrix starts as the identity. */
  method Solve(u: MpInt, v: MpInt, ou: MpInt, ov: MpInt) returns (x: MpInt, y: MpInt)
    requires u.Valid() && v.Valid() && ou.Valid() && ov.Valid() && !u.negative && !v.negative
    requires Apart(u, v) && Apart(u, ou) && Apart(u, ov) && Apart(v, ou) && Apart(v, ov)
    requires ou.Value() == u.Value() > 0 && ov.Value() == v.Value() > 0
    requires u.Value() % 2 == 1 || v.Value() % 2 == 1
    modifies u, u.digits, v, v.digits
    ensures fresh({x, y}) && fresh({x.digits, y.digits}) && (v.digits == old(v.digits) || fresh(v.digits))
    ensures v.Valid() && x.Valid() && y.Valid() && Apart(v, x) && Apart(v, y) && Apart(x, y) && !v.negative
    ensures v.Value() == Gcd(old(u.Value()), old(v.Value()))
    ensures Combines(x.Value(), y.Value(), old(u.Value()), old(v.Value()), v.Value())
    ensures x.Value() == 0 <==> old(u.Value()) % old(v.Value()) == 0
    ensures y.Value() == 0 <==> old(u.Value()) == 1 && old(v.Value()) != 1
  {
    hide Val, Run, Canonical, Gcd, Combines, Tracked;
    ghost var nu, nv := u.Value(), v.Value();
    var p, q;
    p, q, x, y := NewIdentity();
    IdentityCombines(nu, nv);
    TrackedStart(nu, nv);
    Rounds(u, p, q, v, x, y, ou, ov, nu, nv, Gcd(nu, nv));
    TrackedEnd(Values(u, p, q, v, x, y), nu, nv);
  }

  /** Lines 1664-1766 for nonzero a and b.  Which coefficients are zero depends on a and b alone. */
  method Bezout(a: MpInt, b: MpInt) returns (v: MpInt, x: MpInt, y: MpInt, k: nat)
    requires a.Valid() && b.Valid() && a.Mag() > 0 && b.Mag() > 0
    ensures fresh(v) && fresh(v.digits) && fresh(x) && fresh(x.digits) && fresh(y) && fresh(y.digits)
    ensures v.Valid() && x.Valid() && y.Valid() && Apart(v, x) && Apart(v, y) && Apart(x, y) && !v.negative
    ensures v.Mag() * Pow2(k) == Gcd(a.Mag(), b.Mag())
    ensures Combines(x.Value(), y.Value(), a.Mag(), b.Mag(), v.Mag() * Pow2(k))
    ensures x.Value() == 0 <==> XVanishes(a.Mag(), b.Mag())
    ensures y.Value() == 0 <==> YVanishes(a.Mag(), b.Mag())
  {
    hide Val, Run, Canonical, Pow2, Gcd, Combines, XVanishes, YVanishes;
    var u, ou, ov;
    u, v, ou, ov, k := NewNumbers(a, b);
    ghost var nu, nv := u.Mag(), v.Mag();
    GcdScale(nu, nv, Pow2(k));
    VanishesScaled(nu, nv, k);
    x, y := Solve(u, v, ou, ov);
    ScaleCombination(x.Value(), y.Value(), nu, nv, v.Value(), Pow2(k));
  }

  /** The output z, unless it is left out, has the value v. */
  ghost predicate Delivers(z: MpInt?, v: int)
    reads z, if z == null then {} else {z.digits}
  {
    z != null ==> z.Valid() && z.Value() == v
  }

  /** c and the outputs for the coefficients share nothing. */
  ghost predicate Outputs(c: MpInt, x: MpInt?, y: MpInt?)
    reads c, c.digits, x, if x == null then {} else {x.digits}, y, if y == null then {} else {y.digits}
  {
    && c.Valid() && (x != null ==> x.Valid() && Apart(c, x)) && (y != null ==> y.Valid() && Apart(c, y))
    && (x != null && y != null ==> Apart(x, y))
  }

  /** mp_int_egcd (imath.c:1630).  One of the outputs for the coefficients vx and vy may be left out,
      if neither input is zero.  The coefficients belong to the absolute values.  They are those
      of a and b themselves exactly when the coefficient of each negative input comes out as zero:
      that of a when b divides a, that of b when a is a power of two that divides b and is not
      b. */
  method EGcd(a: MpInt, b: MpInt, c: MpInt, x: MpInt?, y: MpInt?) returns (res: MpResult, ghost vx: int, ghost vy: int)
    requires a.Valid() && b.Valid() && Outputs(c, x, y)
    requires SameOrApart(a, c) && SameOrApart(b, c)
    requires x != null || y != null
    requires (a.Mag() == 0) != (b.Mag() == 0) ==> x != null && y != null
    modifies c, c.digits, Objects(x), Objects(y)
    ensures c.Valid()
    ensures res == if old(a.Mag()) == 0 && old(b.Mag()) == 0 then MP_UNDEF else MP_OK
    ensures res == MP_OK ==> Delivers(x, vx) && Delivers(y, vy)
    ensures res == MP_OK ==> c.Value() == Gcd(old(a.Mag()), old(b.Mag()))
    ensures res == MP_OK ==> Combines(vx, vy, old(a.Mag()), old(b.Mag()), c.Value())
    ensures res == MP_OK ==>
              (Combines(vx, vy, old(a.Value()), old(b.Value()), c.Value())
               <==> SignsHarmless(old(a.Value()), old(b.Value())))
  {
    hide Val, Run, Canonical, Pow2, Gcd, Combines, XVanishes, YVanishes;
    ghost var va, vb := a.Value(), b.Value();
    var ca := a.CmpZ();
    var cb := b.CmpZ();
    if ca == 0 && cb == 0 {
      return MP_UNDEF, 0, 0;
    } else if ca == 0 {
      GcdZero(b.Mag());
      Abs(b, c);
      x.SetZero();
      SetOne(y);
      vx, vy := 0, 1;
    } else if cb == 0 {
      GcdZero(a.Mag());
      Abs(a, c);
      SetOne(x);
      y.SetZero();
      vx, vy := 1, 0;
    } else {
      GcdPositive(a.Mag(), b.Mag());
      vx, vy := Coefficients(a, b, c, x, y);
    }
    UnitCombines(va, vb, c.Value());
    SignedCombination(va, vb, vx, vy, c.Value());
    ZeroInput(va, vb);
    res := MP_OK;
  }

  /** Lines 1747-1762: the results are copied out. */
  method Coefficients(a: MpInt, b: MpInt, c: MpInt, x: MpInt?, y: MpInt?) returns (ghost vx: int, ghost vy: int)
    requires a.Valid() && b.Valid() && Outputs(c, x, y)
    requires a.Mag() > 0 && b.Mag() > 0
    modifies c, c.digits, Objects(x), Objects(y)
    ensures c.Valid() && !c.negative && Delivers(x, vx) && Delivers(y, vy)
    ensures c.Mag() == Gcd(old(a.Mag()), old(b.Mag()))
    ensures Combines(vx, vy, old(a.Mag()), old(b.Mag()), c.Value())
    ensures vx == 0 <==> XVanishes(old(a.Mag()), old(b.Mag()))
    ensures vy == 0 <==> YVanishes(old(a.Mag()), old(b.Mag()))
  {
    hide Val, Run, Canonical, Pow2, Gcd, Combines, XVanishes, YVanishes;
    var v, x', y', k := Bezout(a, b);
    vx, vy := x'.Value(), y'.Value();
    if x != null {
      Copy(x', x);
    }
    if y != null {
      Copy(y', y);
    }
    QMul(v, k);
    Copy(v, c);
  }

  lemma GcdPositive(a: nat, b: nat)
    requires a > 0 || b > 0
    ensures Gcd(a, b) > 0
  {
    GcdDivides(a, b);
  }
}
