/** The numbers of the extended binary gcd (imath.c:1694-1766), apart from the objects that hold
    them: the combinations that each row keeps, and which coefficients come out as zero.
 */
module GcdRows {
  import opened Digits
  import opened MpInts
  import opened Shifts
  import opened Gcds

  /** u is written as a combination of the two start values. */
  ghost predicate Combines(a: int, b: int, ou: int, ov: int, u: int) {
    a * ou + b * ov == u
  }

  /** When u is even and not both start values are, adding (ov, -ou) makes the coefficients
      even unless they already are. */
  lemma RowParity(a: int, b: int, ou: int, ov: int, u: int)
    requires Combines(a, b, ou, ov, u) && u % 2 == 0 && (ou % 2 == 1 || ov % 2 == 1)
    requires a % 2 == 1 || b % 2 == 1
    ensures (a + ov) % 2 == 0 && (b - ou) % 2 == 0
  {
    ProductParity(a, ou);
    ProductParity(b, ov);
    Parities(a, b, ou, ov, a * ou, b * ov, u);
  }

  lemma Parities(a: int, b: int, ou: int, ov: int, x: int, y: int, u: int)
    requires x + y == u && u % 2 == 0 && (ou % 2 == 1 || ov % 2 == 1) && (a % 2 == 1 || b % 2 == 1)
    requires x % 2 == 1 <==> a % 2 == 1 && ou % 2 == 1
    requires y % 2 == 1 <==> b % 2 == 1 && ov % 2 == 1
    ensures (a + ov) % 2 == 0 && (b - ou) % 2 == 0
  {
  }

  lemma ShiftRow(a: int, b: int, ou: int, ov: int, u: int)
    requires Combines(a, b, ou, ov, u)
    ensures Combines(a + ov, b - ou, ou, ov, u)
  {
    MulDist(a, ov, ou);
    MulDist(b, ou, ov);
    MulComm(ov, ou);
  }

  lemma HalfRow(a: int, b: int, ou: int, ov: int, u: int)
    requires Combines(a, b, ou, ov, u) && a % 2 == 0 && b % 2 == 0 && u % 2 == 0
    ensures Combines(a / 2, b / 2, ou, ov, u / 2)
  {
    var h, k := a / 2, b / 2;
    assert a == 2 * h && b == 2 * k;
    MulAssoc(2, h, ou);
    MulAssoc(2, k, ov);
  }

  lemma SubMath(a: int, b: int, c: int, d: int, ou: int, ov: int, u: int, v: int)
    requires Combines(a, b, ou, ov, u) && Combines(c, d, ou, ov, v)
    ensures Combines(a - c, b - d, ou, ov, u - v)
  {
    MulDist(a, c, ou);
    MulDist(b, d, ov);
  }

  lemma IdentityCombines(ou: int, ov: int)
    ensures Combines(1, 0, ou, ov, ou) && Combines(0, 1, ou, ov, ov)
  {
  }

  lemma ScaleCombination(x: int, y: int, ou: int, ov: int, v: int, p: nat)
    requires Combines(x, y, ou, ov, v)
    ensures Combines(x, y, ou * p, ov * p, v * p)
  {
    MulDist(x * ou, y * ov, p);
    MulAssoc(x, ou, p);
    MulAssoc(y, ov, p);
  }

  // ---- The rounds on numbers ----

  /** The two rows: u with its coefficients a and b, v with c and d. */
  datatype Rows = Rows(u: int, a: int, b: int, v: int, c: int, d: int)

  /** The coefficients are made even if they are not (lines 1700-1706). */
  function Evened(a: int, b: int, ou: int, ov: int): (int, int) {
    if a % 2 == 1 || b % 2 == 1 then (a + ov, b - ou) else (a, b)
  }

  function HalvedOnce(u: int, a: int, b: int, ou: int, ov: int): (int, int, int) {
    var (a', b') := Evened(a, b, ou, ov);
    (u / 2, a' / 2, b' / 2)
  }

  /** A row whose number has been made odd (lines 1696-1710). */
  function Halved(u: int, a: int, b: int, ou: int, ov: int): (r: (int, int, int))
    requires u > 0
    ensures r.0 > 0
    decreases u
  {
    if u % 2 == 1 then (u, a, b)
    else
      var (u', a', b') := HalvedOnce(u, a, b, ou, ov);
      Halved(u', a', b', ou, ov)
  }

  function Reduced(r: Rows): Rows {
    if r.u >= r.v then r.(u := r.u - r.v, a := r.a - r.c, b := r.b - r.d)
    else r.(v := r.v - r.u, c := r.c - r.a, d := r.d - r.b)
  }

  function BothHalved(r: Rows, ou: int, ov: int): Rows
    requires r.u > 0 && r.v > 0
  {
    var (u, a, b) := Halved(r.u, r.a, r.b, ou, ov);
    var (v, c, d) := Halved(r.v, r.c, r.d, ou, ov);
    Rows(u, a, b, v, c, d)
  }

  // ---- When ov divides ou ----

  /** The second row never changes, and the first stays a multiple of ov. */
  ghost predicate SecondStays(r: Rows, ou: int, ov: int) {
    ov > 0 && ov % 2 == 1 && r.v == ov && r.c == 0 && r.d == 1 && r.u % ov == 0
  }

  lemma {:induction false} HalvedMultiple(u: int, a: int, b: int, ou: int, ov: int, m: int)
    requires u > 0 && m > 0 && m % 2 == 1 && u % m == 0
    ensures Halved(u, a, b, ou, ov).0 % m == 0
    decreases u
  {
    if u % 2 == 0 {
      HalfMultiple(u, m);
      var (u', a', b') := HalvedOnce(u, a, b, ou, ov);
      HalvedMultiple(u', a', b', ou, ov, m);
    }
  }

  lemma HalfMultiple(u: int, m: int)
    requires m > 0 && m % 2 == 1 && u % m == 0 && u % 2 == 0
    ensures (u / 2) % m == 0
  {
    var k := u / m;
    assert u == k * m;
    ProductParity(k, m);
    assert u / 2 == (k / 2) * m by {
      assert k == 2 * (k / 2);
      MulAssoc(2, k / 2, m);
    }
    DivUnique(u / 2, m, k / 2, 0);
  }

  lemma MultipleMinus(u: int, v: int, m: int)
    requires m > 0 && u % m == 0 && v % m == 0
    ensures (u - v) % m == 0
    ensures u > 0 ==> u >= m
  {
    var i, j := u / m, v / m;
    assert u == i * m && v == j * m;
    MulDist(i, j, m);
    DivUnique(u - v, m, i - j, 0);
    if 0 < u < m {
      DivUnique(u, m, 0, u);
    }
  }

  lemma SecondStaysNext(r: Rows, ou: int, ov: int)
    requires SecondStays(r, ou, ov) && r.u > 0
    ensures SecondStays(Reduced(BothHalved(r, ou, ov)), ou, ov)
  {
    HalvedMultiple(r.u, r.a, r.b, ou, ov, ov);
    DivUnique(ov, ov, 1, 0);
    MultipleMinus(Halved(r.u, r.a, r.b, ou, ov).0, ov, ov);
  }

  // ---- When ou divides ov and is smaller ----

  /** The first row stays as it began until the loop ends, and the second number a multiple of
      ou.  If ou is more than 1, no halving makes d a multiple of it; if ou is 1, the first
      halving makes d zero for good. */
  ghost predicate FirstStays(r: Rows, ou: int, ov: int) {
    && 0 < ou < ov && ou % 2 == 1
    && (r.u != 0 ==> r.u == ou && r.a == 1 && r.b == 0)
    && r.v > 0 && r.v % ou == 0
    && (ou > 1 ==> r.d % ou != 0)
    && (ou == 1 ==> Combines(r.c, r.d, 1, ov, r.v))
    && (ou == 1 ==> r.d == 0 || (r.d == 1 && (r.v == ov || (r.v == ov - 1 && r.v % 2 == 0))))
  }

  /** Halving keeps d from being a multiple of an odd number. */
  lemma {:induction false} HalvedResidue(u: int, a: int, b: int, ou: int, ov: int)
    requires u > 0 && ou > 0 && ou % 2 == 1 && Combines(a, b, ou, ov, u) && b % ou != 0
    ensures Halved(u, a, b, ou, ov).2 % ou != 0
    decreases u
  {
    if u % 2 == 0 {
      var (a1, b1) := Evened(a, b, ou, ov);
      if a % 2 == 1 || b % 2 == 1 {
        RowParity(a, b, ou, ov, u);
        ShiftRow(a, b, ou, ov, u);
      }
      HalfRow(a1, b1, ou, ov, u);
      HalfResidue(b, b1, ou);
      HalvedResidue(u / 2, a1 / 2, b1 / 2, ou, ov);
    }
  }

  lemma HalfResidue(b: int, b1: int, m: int)
    requires m > 0 && b % m != 0 && (b1 == b || b1 == b - m) && b1 % 2 == 0
    ensures (b1 / 2) % m != 0
  {
    if (b1 / 2) % m == 0 {
      var k := (b1 / 2) / m;
      assert b1 == 2 * (k * m);
      MulAssoc(2, k, m);
      MulDist(2 * k, 1, m);
      DivUnique(b, m, if b1 == b then 2 * k else 2 * k + 1, 0);
    }
  }

  /** With ou = 1: a zero d stays zero, and any even number makes d = 1 zero. */
  lemma {:induction false} HalvedUnit(v: int, c: int, d: int, ov: int)
    requires v > 0 && Combines(c, d, 1, ov, v) && (d == 0 || d == 1)
    ensures var (v', c', d') := Halved(v, c, d, 1, ov);
            && (d == 0 || v % 2 == 0 ==> d' == 0)
            && Combines(c', d', 1, ov, v')
    decreases v
  {
    if v % 2 == 0 {
      var (c1, d1) := Evened(c, d, 1, ov);
      if c % 2 == 1 || d % 2 == 1 {
        RowParity(c, d, 1, ov, v);
        ShiftRow(c, d, 1, ov, v);
      }
      assert d == 0 ==> c == v;
      HalfRow(c1, d1, 1, ov, v);
      HalvedUnit(v / 2, c1 / 2, d1 / 2, ov);
    }
  }

  lemma OddHalved(u: int, a: int, b: int, ou: int, ov: int)
    requires u > 0
    ensures u % 2 == 1 ==> Halved(u, a, b, ou, ov) == (u, a, b)
  {
  }

  lemma FirstStaysNext(r: Rows, ou: int, ov: int)
    requires FirstStays(r, ou, ov) && r.u > 0 && Combines(r.c, r.d, ou, ov, r.v)
    ensures FirstStays(Reduced(BothHalved(r, ou, ov)), ou, ov)
  {
    hide Halved;
    OddHalved(r.u, r.a, r.b, ou, ov);
    if ou > 1 {
      FirstStaysLarge(r, ou, ov);
    } else {
      FirstStaysUnit(r, ov);
    }
  }

  lemma FirstStaysLarge(r: Rows, ou: int, ov: int)
    requires FirstStays(r, ou, ov) && ou > 1 && r.u > 0 && Combines(r.c, r.d, ou, ov, r.v)
    requires Halved(r.u, r.a, r.b, ou, ov) == (r.u, r.a, r.b)
    ensures FirstStays(Reduced(BothHalved(r, ou, ov)), ou, ov)
  {
    hide Halved, Combines;
    HalvedMultiple(r.v, r.c, r.d, ou, ov, ou);
    DivUnique(ou, ou, 1, 0);
    MultipleMinus(BothHalved(r, ou, ov).v, ou, ou);
    HalvedResidue(r.v, r.c, r.d, ou, ov);
  }

  lemma FirstStaysUnit(r: Rows, ov: int)
    requires FirstStays(r, 1, ov) && r.u > 0
    requires Halved(r.u, r.a, r.b, 1, ov) == (r.u, r.a, r.b)
    ensures FirstStays(Reduced(BothHalved(r, 1, ov)), 1, ov)
  {
    hide Halved, Combines;
    var h := BothHalved(r, 1, ov);
    OddHalved(r.v, r.c, r.d, 1, ov);
    HalvedUnit(r.v, r.c, r.d, ov);
    IdentityCombines(1, ov);
    SubMath(h.c, h.d, 1, 0, 1, ov, h.v, 1);
  }

  // ---- Which coefficients vanish ----

  /** What every round keeps, whichever case the start values are. */
  ghost predicate Tracked(r: Rows, ou: int, ov: int) {
    && ou > 0 && ov > 0
    && (ou % ov == 0 ==> SecondStays(r, ou, ov))
    && (ov % ou == 0 && ou < ov ==> FirstStays(r, ou, ov))
  }

  lemma TrackedStart(ou: int, ov: int)
    requires ou > 0 && ov > 0 && (ou % 2 == 1 || ov % 2 == 1)
    ensures Tracked(Rows(ou, 1, 0, ov, 0, 1), ou, ov)
  {
    if ou % ov == 0 {
      OddDivisor(ou, ov);
    }
    if ov % ou == 0 && ou < ov {
      OddDivisor(ov, ou);
      if ou > 1 {
        DivUnique(1, ou, 0, 1);
      }
    }
  }

  lemma OddDivisor(n: int, m: int)
    requires m > 0 && n % m == 0 && (n % 2 == 1 || m % 2 == 1)
    ensures m % 2 == 1
  {
    assert n == (n / m) * m;
    ProductParity(n / m, m);
  }

  lemma TrackedNext(r: Rows, ou: int, ov: int)
    requires Tracked(r, ou, ov) && r.u > 0 && r.v > 0 && Combines(r.c, r.d, ou, ov, r.v)
    ensures Tracked(Reduced(BothHalved(r, ou, ov)), ou, ov)
  {
    hide Combines, Halved, Reduced, BothHalved;
    if ou % ov == 0 {
      SecondStaysNext(r, ou, ov);
    }
    if ov % ou == 0 && ou < ov {
      FirstStaysNext(r, ou, ov);
    }
  }

  /** At the end, c is zero exactly if ov divides ou, and d exactly if ou is 1 and ov is not. */
  lemma TrackedEnd(r: Rows, ou: int, ov: int)
    requires Tracked(r, ou, ov) && r.u == 0 && r.v == Gcd(ou, ov) && Combines(r.c, r.d, ou, ov, r.v)
    ensures r.c == 0 <==> ou % ov == 0
    ensures r.d == 0 <==> ou == 1 && ov != 1
  {
    hide Gcd, Combines, Tracked, FirstStays, SecondStays;
    EndFacts(r, ou, ov);
    GcdDivides(ou, ov);
    DividesLe(r.v, ou);
    if r.c == 0 {
      MultipleOfProduct(ou, r.d, ov, r.v);
    }
    if r.d == 0 {
      MultipleOfProduct(ov, r.c, ou, r.v);
      SmallMultiple(ov, ou);
    }
    if ou == 1 {
      DivUnique(ov, 1, ov, 0);
    }
  }

  /** What is tracked says of the coefficients when the first number is zero. */
  lemma EndFacts(r: Rows, ou: int, ov: int)
    requires Tracked(r, ou, ov) && r.u == 0 && r.v == Gcd(ou, ov) && Combines(r.c, r.d, ou, ov, r.v)
    ensures ou > 0 && ov > 0
    ensures ou % ov == 0 ==> r.c == 0 && r.d == 1
    ensures ov % ou == 0 && 1 < ou < ov ==> r.d != 0
    ensures ou == 1 < ov ==> r.d == 0
    ensures r.c == 0 ==> r.d * ov == r.v
    ensures r.d == 0 ==> r.c * ou == r.v
  {
    hide Gcd;
    if 1 < ou && ov % ou == 0 {
      DivUnique(0, ou, 0, 0);
    }
    if ou == 1 {
      GcdDivides(1, ov);
      DividesLe(r.v, 1);
      DivUnique(ov, 1, ov, 0);
    }
  }

  /** A positive multiple is the number itself or larger. */
  lemma SmallMultiple(n: int, m: int)
    requires m > 0 && n > 0 && n % m == 0
    ensures m <= n && (n == m ==> m % n == 0)
  {
    DivUnique(m, m, 1, 0);
    if n < m {
      DivUnique(n, m, 0, n);
    }
  }

  /** A multiple of d * m is a multiple of m. */
  lemma MultipleOfProduct(n: int, d: int, m: int, g: int)
    requires m > 0 && g > 0 && n % g == 0 && d * m == g
    ensures n % m == 0
  {
    var k := n / g;
    assert n == k * g;
    MulAssoc(k, d, m);
    DivUnique(n, m, k * d, 0);
  }

  // ---- The same for the inputs ----

  /** The coefficient of a comes out as zero. */
  ghost predicate XVanishes(a: nat, b: nat) {
    Divides(b, a)
  }

  /** The coefficient of b comes out as zero. */
  ghost predicate YVanishes(a: nat, b: nat) {
    a != b && Divides(a, b) && PowerOfTwo(a)
  }

  /** The inputs for which coefficients of the absolute values are coefficients of the inputs. */
  ghost predicate SignsHarmless(a: int, b: int) {
    && (a >= 0 || XVanishes(AbsVal(a), AbsVal(b)))
    && (b >= 0 || YVanishes(AbsVal(a), AbsVal(b)))
  }

  /** With one input zero the other one's coefficient is 1, whatever its sign. */
  lemma ZeroInput(a: int, b: int)
    ensures a == 0 ==> (SignsHarmless(a, b) <==> b >= 0)
    ensures b == 0 ==> (SignsHarmless(a, b) <==> a >= 0)
  {
  }

  /** With both inputs negative one of the coefficients is not zero, so they are always wrong. */
  lemma BothNegative(a: int, b: int)
    requires a < 0 && b < 0
    ensures !SignsHarmless(a, b)
  {
    if Divides(AbsVal(b), AbsVal(a)) && Divides(AbsVal(a), AbsVal(b)) {
      DividesLe(AbsVal(b), AbsVal(a));
      DividesLe(AbsVal(a), AbsVal(b));
    }
  }

  /** Dividing both inputs by a common power of two changes neither condition. */
  lemma VanishesScaled(ou: nat, ov: nat, k: nat)
    requires ou > 0 && ov > 0 && (ou % 2 == 1 || ov % 2 == 1)
    ensures XVanishes(ou * Pow2(k), ov * Pow2(k)) <==> ou % ov == 0
    ensures YVanishes(ou * Pow2(k), ov * Pow2(k)) <==> ou == 1 && ov != 1
  {
    hide Gcd, Pow2;
    Pow2Even(k);
    var p := Pow2(k);
    ScaledDivision(ou, ov, p);
    ScaledDivision(ov, ou, p);
    ZeroProducts(ou % ov, p);
    ZeroProducts(ov % ou, p);
    if YVanishes(ou * p, ov * p) {
      OddDivisor(ov, ou);
      var j: nat :| ou * p == Pow2(j);
      OddPowerOfTwo(ou, k, j);
    }
    if ou == 1 && ov != 1 {
      DivUnique(ov, 1, ov, 0);
      MulMono(2, ov, p);
      assert ou * p == Pow2(k);
    }
  }

  lemma ZeroProducts(r: nat, p: nat)
    requires p > 0
    ensures r * p == 0 <==> r == 0
  {
  }

  // ---- Signs ----

  lemma UnitCombines(a: int, b: int, c: int)
    ensures a == 0 && c == AbsVal(b) ==> Combines(0, 1, AbsVal(a), AbsVal(b), c)
    ensures b == 0 && c == AbsVal(a) ==> Combines(1, 0, AbsVal(a), AbsVal(b), c)
  {
  }

  /** When coefficients of the absolute values are coefficients of the numbers themselves. */
  lemma SignedCombination(a: int, b: int, x: int, y: int, c: int)
    requires c > 0 && Combines(x, y, AbsVal(a), AbsVal(b), c)
    ensures Combines(x, y, a, b, c) <==> (a >= 0 || x == 0) && (b >= 0 || y == 0)
  {
    SignFlip(x, a);
    SignFlip(y, b);
    ZeroProduct(x, a);
    ZeroProduct(y, b);
  }

  lemma SignFlip(x: int, a: int)
    ensures x * AbsVal(a) == if a < 0 then -(x * a) else x * a
  {
  }

  lemma ZeroProduct(x: int, a: int)
    ensures a < 0 && x != 0 ==> x * a != 0
  {
  }
}
