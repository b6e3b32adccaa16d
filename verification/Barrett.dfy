/** Barrett reduction and modular exponentiation (imath.c:3239, imath.c:3295). */
module Barrett {
  import opened Digits
  import opened DigitLoops
  import opened Karatsuba
  import opened MpInts
  import opened Shifts
  import opened Quotients

  // ---- The estimate ----

  /** The quotient that two shifts and a product estimate is never too large and at most two
      too small: 0 <= x - q2 * m < 3m. */
  lemma BarrettBounds(x: nat, m: nat, mu: nat, q1: nat, q2: nat, k: nat)
    requires k >= 1 && Pow(k - 1) <= m < Pow(k) && x < Pow(2 * k)
    requires mu == Pow(2 * k) / m && q1 == x / Pow(k - 1) && q2 == (q1 * mu) / Pow(k + 1)
    ensures q2 * m <= x < q2 * m + 3 * m
  {
    hide Pow;
    var p, r, pp := Pow(k - 1), Pow(k + 1), Pow(2 * k);
    PowAdd(k - 1, k + 1);
    assert (k - 1) + (k + 1) == 2 * k;
    assert q1 < r by {
      MulComm(p, r);
      DivBelow(x, r, p);
    }
    assert mu <= r by {
      DivMono(pp, p, m);
      MulComm(p, r);
      DivUnique(pp, p, r, 0);
    }
    Floor(x, p);
    Floor(pp, m);
    Floor(q1 * mu, r);
    EstimateLow(x, m, mu, q1, q2, p, r, pp);
    EstimateHigh(x, m, mu, q1, q2, p, r, pp);
  }

  lemma Floor(a: nat, b: nat)
    requires b > 0
    ensures (a / b) * b <= a < (a / b + 1) * b
  {
    MulDist(a / b, 1, b);
  }

  lemma DivMono(a: nat, b: nat, c: nat)
    requires 0 < b <= c
    ensures a / c <= a / b
  {
    Floor(a, c);
    DivNat(a, c);
    MulMono(b, c, a / c);
    MulComm(b, a / c);
    MulComm(c, a / c);
    assert (a / c) * b <= a;
    Floor(a, b);
    if a / c > a / b {
      MulMono(a / b + 1, a / c, b);
    }
  }

  lemma EstimateLow(x: nat, m: nat, mu: nat, q1: nat, q2: nat, p: nat, r: nat, pp: nat)
    requires pp == p * r && pp > 0
    requires q1 * p <= x && mu * m <= pp && q2 * r <= q1 * mu
    ensures q2 * m <= x
  {
    assert (q2 * m) * pp <= x * pp by {
      assert (q2 * m) * pp == ((q2 * r) * m) * p by {
        MulAssoc(q2 * m, p, r);
        Shuffle(q2, m, p, r);
      }
      MulMono(q2 * r, q1 * mu, m);
      MulMono((q2 * r) * m, (q1 * mu) * m, p);
      assert ((q1 * mu) * m) * p == (q1 * p) * (mu * m) by {
        Shuffle2(q1, mu, m, p);
      }
      MulMono(mu * m, pp, q1 * p);
      MulComm(q1 * p, mu * m);
      MulMono(q1 * p, x, pp);
      MulComm(pp, q1 * p);
    }
    if q2 * m > x {
      MulMono(x + 1, q2 * m, pp);
      MulDist(x, 1, pp);
    }
  }

  lemma Shuffle(a: int, b: int, c: int, d: int)
    ensures ((a * b) * c) * d == ((a * d) * b) * c
  {
    MulAssoc(a, b, c);
    MulAssoc(a, b * c, d);
    MulComm(b * c, d);
    MulAssoc(a, d, b * c);
    MulAssoc(a * d, b, c);
  }

  lemma Shuffle2(a: int, b: int, c: int, d: int)
    ensures ((a * b) * c) * d == (a * d) * (b * c)
  {
    MulAssoc(a, b, c);
    MulAssoc(a, b * c, d);
    MulComm(b * c, d);
    MulAssoc(a, d, b * c);
  }

  lemma EstimateHigh(x: nat, m: nat, mu: nat, q1: nat, q2: nat, p: nat, r: nat, pp: nat)
    requires pp == p * r && p > 0 && r > 0 && m > 0
    requires x < (q1 + 1) * p && pp < (mu + 1) * m && q1 * mu < (q2 + 1) * r
    requires q1 < r && mu <= r
    ensures x < (q2 + 3) * m
    ensures (q2 + 3) * m == q2 * m + 3 * m
  {
    MulDist(q2, 3, m);
    var s := (q1 + 1) * (mu + 1);
    assert s < (q2 + 3) * r by {
      MulDist(q1, 1, mu + 1);
      MulDist2(q1, mu, 1);
      MulDist(q2 + 1, 2, r);
    }
    if x >= (q2 + 3) * m {
      // x * pp would be at least (q2 + 3) * m * pp, yet it is below s * p * m.
      var y := (q2 + 3) * m;
      assert y * pp <= x * pp by { MulMono(y, x, pp); }
      assert x * pp <= ((q1 + 1) * p) * ((mu + 1) * m) by {
        MulMono(x, (q1 + 1) * p, pp);
        MulMono(pp, (mu + 1) * m, (q1 + 1) * p);
        MulComm(pp, (q1 + 1) * p);
        MulComm((mu + 1) * m, (q1 + 1) * p);
      }
      assert ((q1 + 1) * p) * ((mu + 1) * m) == (s * m) * p by {
        Shuffle2(q1 + 1, mu + 1, m, p);
      }
      assert y * pp == (((q2 + 3) * r) * m) * p by {
        MulAssoc(y, p, r);
        Shuffle(q2 + 3, m, p, r);
      }
      Strict(s, (q2 + 3) * r, m, p);
    }
  }

  lemma Strict(a: nat, b: nat, m: nat, p: nat)
    requires a < b && m > 0 && p > 0
    ensures (a * m) * p < (b * m) * p
  {
    MulMono(a + 1, b, m);
    MulDist(a, 1, m);
    MulMono(a * m + 1, b * m, p);
    MulDist(a * m, 1, p);
  }

  /** Subtracting modulo w from numbers that differ by r < w: the difference is r or r - w,
      and it is only negative when the larger number does not fit below w. */
  lemma WrappedDifference(x: nat, y: nat, r: nat, w: nat)
    requires x == y + r && r < w
    ensures x % w - y % w == r || (x % w - y % w == r - w && x >= w)
  {
    DivNat(x, w);
    WrapMath(x / w, y / w, x % w, y % w, r, w);
    if x / w >= 1 {
      MulMono(1, x / w, w);
    }
  }

  lemma WrapMath(a: nat, b: nat, s: nat, t: nat, r: nat, w: nat)
    requires s < w && t < w && r < w
    requires a * w + s == b * w + t + r
    ensures s - t == r || (s - t == r - w && a >= 1)
  {
    MulDist(a, b, w);
    if a - b >= 2 {
      MulMono(2, a - b, w);
    } else if a - b <= -1 {
      MulMono(a - b, -1, w);
    }
  }

  // ---- One reduction on numbers ----

  /** What s_qsub makes of a difference that is negative: the length is not brought up to date, so
      the power of RADIX that is added is that of the difference. */
  ghost function Pinned(d: int): nat {
    if d >= 0 then d else BelowLength(-d); Pow(Length(-d)) + d
  }

  function Lowered(v: nat, m: nat): nat {
    if v >= m then v - m else v
  }

  /** The leading part of x (line 3248). */
  ghost function Leading(x: nat, m: nat): nat {
    LengthPositive(m);
    DivNat(x, Pow(Length(m) - 1));
    x / Pow(Length(m) - 1)
  }

  /** The estimated quotient of x by m (lines 3249-3250). */
  ghost function Guess(x: nat, m: nat, mu: nat): nat {
    DivNat(Leading(x, m) * mu, Pow(Length(m) + 1));
    (Leading(x, m) * mu) / Pow(Length(m) + 1)
  }

  /** The subtraction modulo a power of RADIX (lines 3253-3262). */
  ghost function Difference(x: nat, m: nat, mu: nat): int {
    x % Pow(Length(m) + 1) - (Guess(x, m, mu) * m) % Pow(Length(m) + 1)
  }

  /** What s_reduce makes of x, whatever the constant mu is. */
  ghost function Reduction(x: nat, m: nat, mu: nat): nat {
    Lowered(Lowered(Pinned(Difference(x, m, mu)), m), m)
  }

  lemma LengthPositive(v: nat)
    ensures Length(v) > 0
  {
  }

  /** mu is the constant that Barrett reduction needs. */
  ghost predicate RightConstant(m: nat, mu: nat) {
    m > 0 && mu == Pow(2 * Length(m)) / m
  }

  /** With the right constant s_reduce delivers the remainder: the estimate is at most two too
      small, a negative difference has exactly one digit more than m, so s_qsub corrects it, and
      two subtractions suffice. */
  lemma ReductionExact(x: nat, m: nat, mu: nat)
    requires RightConstant(m, mu) && x < Pow(2 * Length(m))
    ensures Reduction(x, m, mu) == x % m && Guess(x, m, mu) * m <= x
  {
    hide Pow, Length, Guess, Leading;
    var k, q := Length(m), Guess(x, m, mu);
    GuessBounds(x, m, mu);
    var v, w := x - q * m, Pow(k + 1);
    BelowLength(m);
    ThreePow(m, k);
    WrappedDifference(x, q * m, v, w);
    var d := Difference(x, m, mu);
    if d < 0 {
      LengthBounds(-d, k);
      LengthBounds(-d, k + 1);
    }
    assert Pinned(d) == v;
    TwoSubtractions(x, m, q, v, Lowered(Lowered(v, m), m));
  }

  lemma GuessBounds(x: nat, m: nat, mu: nat)
    requires RightConstant(m, mu) && x < Pow(2 * Length(m))
    ensures var q := Guess(x, m, mu); q * m <= x < q * m + 3 * m
  {
    hide Pow, Length;
    LengthPositive(m);
    LengthBounds(m, Length(m) - 1);
    LengthBounds(m, Length(m));
    BelowLength(m);
    LongestBelow(m);
    BarrettBounds(x, m, mu, Leading(x, m), Guess(x, m, mu), Length(m));
  }

  lemma LongestBelow(m: nat)
    requires m > 0
    ensures Length(m) > 0 && Pow(Length(m) - 1) <= m
  {
    hide Pow, Length, TopOf;
    LengthPositive(m);
    TopBelow(m);
    if Length(m) > 1 {
      LongTop(m);
      MulMono(1, TopOf(m), Pow(Length(m) - 1));
    } else {
      Units();
    }
  }

  lemma TwoSubtractions(v: nat, m: nat, q: nat, r: nat, x: nat)
    requires v == q * m + r && r < 3 * m
    requires x < m && (x == r || x == r - m || x == r - 2 * m)
    ensures x == v % m
  {
    var j := if x == r then 0 else if x == r - m then 1 else 2;
    MulDist(q, j, m);
    DivUnique(v, m, q + j, x);
  }

  lemma ThreePow(m: nat, k: nat)
    requires m < Pow(k)
    ensures 3 * m < Pow(k + 1)
    ensures Pow(k + 1) - 3 * m >= Pow(k)
  {
  }

  // ---- s_reduce ----

  /** The reduction constant and the temporaries share nothing with each other. */
  ghost predicate Temps(x: MpInt, m: MpInt, mu: MpInt, q1: MpInt, q2: MpInt)
    reads x, m, mu, q1, q2
  {
    && Apart(x, m) && Apart(x, mu) && Apart(x, q1) && Apart(x, q2)
    && Apart(q1, m) && Apart(q1, mu) && Apart(q1, q2) && Apart(q2, m) && Apart(q2, mu)
  }

  ghost predicate Modulus(m: MpInt, mu: MpInt)
    reads m, m.digits, mu, mu.digits
  {
    m.Valid() && mu.Valid() && !m.negative && !mu.negative && m.Mag() > 0
  }

  /** The buffer of z is the old one or a new one, nobody else's, and not a smaller one. */
  twostate predicate Kept(z: MpInt)
    reads z
  {
    (z.digits == old(z.digits) || fresh(z.digits)) && z.digits.Length >= old(z.digits.Length)
  }

  /** Both products of s_reduce stay within room digits. */
  ghost predicate ReductionFits(x: nat, m: nat, mu: nat, room: nat) {
    && Room(MULTIPLY_THRESHOLD, Length(Leading(x, m)), Length(mu)) <= room
    && Room(MULTIPLY_THRESHOLD, Length(Guess(x, m, mu)), Length(m)) <= room
  }

  lemma ShrPow(v: nat, n: nat)
    ensures Shr(v, DIGIT_BIT * n) == v / Pow(n)
  {
    Pow2Digits(n);
  }

  /** The UMUL macro into a buffer of at least room digits.  The product is not made when s_kmul
      would touch more digits than that. */
  method Product(x: MpInt, y: MpInt, z: MpInt, room: nat) returns (inside: bool)
    requires x.Valid() && y.Valid() && z.Sized() && Apart(x, z) && Apart(y, z) && z.digits.Length >= room
    modifies z`used, z.digits
    ensures inside <==> Room(MULTIPLY_THRESHOLD, Length(x.Mag()), Length(y.Mag())) <= room
    ensures z.Sized() && (inside ==> z.Valid() && z.Mag() == x.Mag() * y.Mag())
  {
    hide Val, Run, Canonical, Room, Length;
    LengthOf(Run(x.digits, 0, x.used));
    LengthOf(Run(y.digits, 0, y.used));
    inside := Room(MULTIPLY_THRESHOLD, x.used, y.used) <= room;
    if inside {
      UMulTo(x, y, z);
    }
  }

  /** Lines 3244-3250: q2 becomes the estimate of x / m. */
  method Estimate(x: MpInt, m: MpInt, mu: MpInt, q1: MpInt, q2: MpInt, room: nat) returns (inside: bool)
    requires Modulus(m, mu) && Temps(x, m, mu, q1, q2)
    requires x.Valid() && !x.negative && q1.Sized() && q2.Sized() && !q2.negative && q2.digits.Length >= room
    modifies q1, q1.digits, q2`used, q2`negative, q2.digits
    ensures Kept(q1) && q1.Valid() && !q1.negative && q2.Sized() && !q2.negative
    ensures inside <==> Room(MULTIPLY_THRESHOLD, Length(Leading(x.Mag(), m.Mag())), Length(mu.Mag())) <= room
    ensures inside ==> q2.Valid() && q2.Mag() == Guess(x.Mag(), m.Mag(), mu.Mag())
  {
    hide Val, Run, Canonical, Pow, Shr, Length, Room;
    var k := m.used;
    LengthOf(Run(m.digits, 0, k));
    ShrPow(x.Mag(), k - 1);
    Copy(x, q1);
    QDiv(q1, DIGIT_BIT * (k - 1));
    inside := Product(q1, mu, q2, room);
    if inside {
      ShrPow(q2.Mag(), k + 1);
      QDiv(q2, DIGIT_BIT * (k + 1));
    }
  }

  /** Lines 3253-3273: x becomes the difference, made positive. */
  method SubtractEstimate(x: MpInt, m: MpInt, mu: MpInt, q1: MpInt, q2: MpInt, room: nat, ghost v: nat)
    returns (inside: bool)
    requires Modulus(m, mu) && Temps(x, m, mu, q1, q2)
    requires x.Valid() && !x.negative && q1.Sized() && !q1.negative && q2.Valid() && !q2.negative
    requires x.Mag() == v && q2.Mag() == Guess(v, m.Mag(), mu.Mag()) && q1.digits.Length >= room
    modifies x, x.digits, q1`used, q1.digits
    ensures Kept(x) && q1.Sized() && !q1.negative && !x.negative
    ensures inside <==> Room(MULTIPLY_THRESHOLD, Length(Guess(v, m.Mag(), mu.Mag())), Length(m.Mag())) <= room
    ensures inside ==> x.Valid() && x.Mag() == Pinned(Difference(v, m.Mag(), mu.Mag()))
  {
    hide Val, Run, Canonical, Pow, Pow2, Length, Room, Guess, Pinned;
    var k := m.used;
    var p2 := DIGIT_BIT * (k + 1);
    LengthOf(Run(m.digits, 0, k));
    Pow2Digits(k + 1);
    QMod(x, p2);
    inside := Product(q2, m, q1, room);
    if inside {
      QMod(q1, p2);
      PinDifference(x, q1, k);
    }
  }

  /** Lines 3262-3273. */
  method PinDifference(x: MpInt, q1: MpInt, k: nat)
    requires x.Valid() && q1.Valid() && !x.negative && !q1.negative && Apart(x, q1)
    requires x.Mag() < Pow(k + 1) && q1.Mag() < Pow(k + 1)
    modifies x, x.digits
    ensures Kept(x) && x.Valid() && !x.negative && x.Mag() == Pinned(old(x.Mag()) - q1.Mag())
  {
    hide Val, Run, Canonical, Pow, Pow2, Length;
    ghost var d: int := x.Mag() - q1.Mag();
    Sub(x, q1, x);
    var sign := x.CmpZ();
    if sign < 0 {
      LengthBounds(x.Mag(), k + 1);
      LengthOf(Run(x.digits, 0, x.used));
      ghost var noBorrow := QSub(x, DIGIT_BIT * (k + 1));
    }
  }

  /** Lines 3279-3282: at most two subtractions of m. */
  method BackOff(x: MpInt, m: MpInt)
    requires x.Valid() && m.Valid() && Apart(x, m) && !x.negative && !m.negative
    modifies x, x.digits
    ensures Kept(x) && x.Valid() && !x.negative && x.Mag() == Lowered(Lowered(old(x.Mag()), m.Mag()), m.Mag())
  {
    hide Val, Run, Canonical;
    var cmp := Compare(x, m);
    if cmp >= 0 {
      Sub(x, m, x);
    }
    cmp := Compare(x, m);
    if cmp >= 0 {
      Sub(x, m, x);
    }
  }

  /** s_reduce (imath.c:3239), for every constant mu.  It stays inside temporaries of room digits
      exactly if both its products do. */
  method Reduce(x: MpInt, m: MpInt, mu: MpInt, q1: MpInt, q2: MpInt, room: nat) returns (inside: bool)
    requires Modulus(m, mu) && Temps(x, m, mu, q1, q2)
    requires x.Valid() && !x.negative && q1.Sized() && q2.Sized() && !q2.negative
    requires q1.digits.Length >= room && q2.digits.Length >= room
    modifies x, x.digits, q1, q1.digits, q2, q2.digits
    ensures Kept(x) && Kept(q1) && Kept(q2) && Temps(x, m, mu, q1, q2)
    ensures q1.Sized() && q2.Sized() && !q2.negative && !x.negative
    ensures inside <==> ReductionFits(old(x.Mag()), m.Mag(), mu.Mag(), room)
    ensures inside ==> x.Valid() && x.Mag() == Reduction(old(x.Mag()), m.Mag(), mu.Mag())
  {
    hide Val, Run, Canonical, Pow, Length, Room, Guess, Leading, Pinned, Difference;
    ghost var v := x.Mag();
    inside := Estimate(x, m, mu, q1, q2, room);
    if !inside {
      return;
    }
    inside := SubtractEstimate(x, m, mu, q1, q2, room, v);
    if inside {
      BackOff(x, m);
    }
  }

  // ---- Powers modulo m ----

  ghost function Exp(a: int, n: nat): int {
    if n == 0 then 1 else a * Exp(a, n - 1)
  }

  lemma {:induction false} ExpSquare(a: int, n: nat)
    ensures Exp(a, 2 * n) == Exp(a * a, n)
  {
    if n > 0 {
      ExpSquare(a, n - 1);
      assert Exp(a, 2 * n) == a * (a * Exp(a, 2 * n - 2));
      MulAssoc(a, a, Exp(a, 2 * n - 2));
    }
  }

  lemma ModFactor(x: int, y: int, m: nat)
    requires m > 0
    ensures ((x % m) * y) % m == (x * y) % m
  {
    var q, r := x / m, x % m;
    assert x == q * m + r;
    MulDist(q * m, r, y);
    MulAssoc(q, m, y);
    MulComm(m, y);
    MulAssoc(q, y, m);
    var e, f := (r * y) / m, (r * y) % m;
    assert r * y == e * m + f;
    MulDist(q * y, e, m);
    DivUnique(x * y, m, q * y + e, f);
  }

  lemma {:induction false} ExpMod(a: int, n: nat, m: nat)
    requires m > 0
    ensures Exp(a % m, n) % m == Exp(a, n) % m
  {
    if n > 0 {
      ExpMod(a, n - 1, m);
      var e, f := Exp(a % m, n - 1), Exp(a, n - 1);
      ModFactor(a, e, m);
      MulComm(a, e);
      MulComm(a, f);
      ModFactor(e, a, m);
      ModFactor(f, a, m);
    }
  }

  /** c times a to the n, modulo m: what a run of square-and-multiply still has to deliver. */
  ghost function Goal(c: int, a: int, n: nat, m: nat): int
    requires m > 0
  {
    (c * Exp(a, n)) % m
  }

  /** Handling the low bit of the exponent and squaring keeps the goal. */
  lemma GoalStep(c: int, a: int, n: nat, m: nat)
    requires m > 0
    ensures n % 2 == 1 ==> Goal(c, a, n, m) == Goal((c * a) % m, (a * a) % m, n / 2, m)
    ensures n % 2 == 0 ==> Goal(c, a, n, m) == Goal(c, (a * a) % m, n / 2, m)
  {
    var h := n / 2;
    ExpSquare(a, h);
    ExpMod(a * a, h, m);
    var e, e' := Exp(a * a, h), Exp((a * a) % m, h);
    if n % 2 == 1 {
      assert Exp(a, n) == a * e;
      MulAssoc(c, a, e);
      SwapMod(c * a, e, e', m);
      ModFactor(c * a, e', m);
    } else {
      SwapMod(c, e, e', m);
    }
  }

  lemma SwapMod(c: int, e: int, e': int, m: nat)
    requires m > 0 && e % m == e' % m
    ensures (c * e) % m == (c * e') % m
  {
    ModFactor(e, c, m);
    ModFactor(e', c, m);
    MulComm(c, e);
    MulComm(c, e');
  }

  lemma GoalEnd(c: nat, a: int, m: nat)
    requires m > 0
    ensures c < m ==> Goal(c, a, 0, m) == c
    ensures Goal(c, a, 1, m) == (c * a) % m
  {
    assert Exp(a, 1) == a * Exp(a, 0);
    if c < m {
      DivUnique(c, m, 0, c);
    }
  }

  lemma GoalStart(a: int, n: nat, m: nat)
    requires m > 0
    ensures Goal(1, a, n, m) == Exp(a, n) % m
  {
  }

  // ---- Square and multiply on numbers ----

  /** What s_embar makes of c and a for the exponent n, whatever the constant is: its low-order
      digits take 32 bits each, and the highest-order digit stops at its top bit. */
  ghost function Powered(n: nat, c: nat, a: nat, m: nat, mu: nat): nat {
    var c' := if n % 2 == 1 then Reduction(c * a, m, mu) else c;
    if n / 2 == 0 then c' else Powered(n / 2, c', Reduction(a * a, m, mu), m, mu)
  }

  ghost predicate FactorsFit(c: nat, a: nat, m: nat, mu: nat, room: nat) {
    Room(MULTIPLY_THRESHOLD, Length(c), Length(a)) <= room && ReductionFits(c * a, m, mu, room)
  }

  ghost predicate SquareFits(a: nat, m: nat, mu: nat, room: nat) {
    SqrRoom(MULTIPLY_THRESHOLD, Length(a)) <= room && ReductionFits(a * a, m, mu, room)
  }

  /** All products of the run stay within room digits. */
  ghost predicate RunFits(n: nat, c: nat, a: nat, m: nat, mu: nat, room: nat) {
    && (n % 2 == 1 ==> FactorsFit(c, a, m, mu, room))
    && (n / 2 != 0 ==>
          && SquareFits(a, m, mu, room)
          && RunFits(n / 2, if n % 2 == 1 then Reduction(c * a, m, mu) else c, Reduction(a * a, m, mu), m, mu, room))
  }

  /** Products of residues are small enough for s_reduce. */
  lemma ResidueProduct(x: nat, y: nat, m: nat)
    requires x <= m && y < m
    ensures x * y < Pow(2 * Length(m))
  {
    hide Pow, Length;
    BelowLength(m);
    var p := Pow(Length(m));
    PowAdd(Length(m), Length(m));
    MulMono(x, p, y);
    MulMono(y + 1, p, p);
    MulDist(y, 1, p);
    MulComm(p, y);
  }

  /** With the right constant the run delivers c times a to the n modulo m, except that an exponent
      of 0 leaves a c that is m itself. */
  lemma {:induction false} PoweredExact(n: nat, c: nat, a: nat, m: nat, mu: nat)
    requires RightConstant(m, mu) && a < m && c <= m
    ensures Powered(n, c, a, m, mu) == if n == 0 && c == m then m else Goal(c, a, n, m)
  {
    hide Goal, Reduction, RightConstant;
    ResidueProduct(c, a, m);
    ResidueProduct(a, a, m);
    ReductionExact(c * a, m, mu);
    ReductionExact(a * a, m, mu);
    GoalStep(c, a, n, m);
    GoalEnd(c, a, m);
    if n / 2 != 0 {
      PoweredExact(n / 2, if n % 2 == 1 then (c * a) % m else c, (a * a) % m, m, mu);
    }
  }

  // ---- When the temporaries are long enough ----

  /** The digits that the temporaries need for products of two numbers as long as mu. */
  function TempDigits(used: nat): nat {
    Room(MULTIPLY_THRESHOLD, used, used)
  }

  /** s_embar reserves twice the digits of mu.  That is enough exactly for lengths up to 32 and
      for even lengths; otherwise two digits are missing. */
  lemma TempsReserved(used: nat)
    ensures TempDigits(used) <= 2 * used <==> used <= MULTIPLY_THRESHOLD || used % 2 == 0
    ensures TempDigits(used) <= 2 * used + 2
  {
  }

  lemma TempsEnough(a: nat, b: nat, used: nat)
    requires a <= used && b <= used
    ensures Room(MULTIPLY_THRESHOLD, a, b) <= TempDigits(used)
    ensures a < used ==> SqrRoom(MULTIPLY_THRESHOLD, a) <= TempDigits(used)
    decreases b > a
  {
    if b > a {
      TempsEnough(b, a, used);
    }
  }

  lemma QuotientBelow(q: nat, m: nat, x: nat, p: nat)
    requires m > 0 && q * m <= x < m * p
    ensures q < p
  {
    if q >= p {
      MulMono(p, q, m);
      MulComm(p, m);
    }
  }

  lemma AtLeast(x: nat, m: nat, p: nat)
    requires 0 < m <= p && x == p * p
    ensures x / m >= p
  {
    MulMono(m, p, p);
    var q := x / m;
    assert x == q * m + x % m;
    MulDist(q, 1, m);
    MulComm(p, m);
    if q < p {
      MulMono(q + 1, p, m);
    }
  }

  /** What is below B^(2k) has at most k + 1 digits when k - 1 are shifted out. */
  lemma DivSmall(x: nat, k: nat)
    requires k >= 1 && x < Pow(2 * k)
    ensures x / Pow(k - 1) < Pow(k + 1)
  {
    hide Pow;
    PowAdd(k - 1, k + 1);
    QuotientBelow(x / Pow(k - 1), Pow(k - 1), x, Pow(k + 1));
  }

  /** The right constant is longer than the modulus, by at most two digits. */
  lemma ConstantLength(m: nat, mu: nat)
    requires RightConstant(m, mu)
    ensures Length(m) < Length(mu) <= Length(m) + 2
  {
    hide Pow, Length, RightConstant;
    ConstantAtLeast(m, mu);
    ConstantAtMost(m, mu);
    LengthBounds(mu, Length(m));
    LengthBounds(mu, Length(m) + 2);
  }

  lemma ConstantAtLeast(m: nat, mu: nat)
    requires RightConstant(m, mu)
    ensures mu >= Pow(Length(m))
  {
    hide Pow, Length;
    var k := Length(m);
    BelowLength(m);
    PowAdd(k, k);
    AtLeast(Pow(2 * k), m, Pow(k));
  }

  lemma ConstantAtMost(m: nat, mu: nat)
    requires RightConstant(m, mu)
    ensures mu < Pow(Length(m) + 2)
  {
    hide Pow, Length;
    var k := Length(m);
    LongestBelow(m);
    PowAdd(k - 1, k + 1);
    assert (k - 1) + (k + 1) == 2 * k;
    MulComm(Pow(k - 1), Pow(k + 1));
    DivMono(Pow(2 * k), Pow(k - 1), m);
    DivUnique(Pow(2 * k), Pow(k - 1), Pow(k + 1), 0);
    PowUp(k + 2);
  }

  /** The operands of s_reduce are no longer than the right constant. */
  lemma OperandsShort(x: nat, m: nat, mu: nat)
    requires RightConstant(m, mu) && x < Pow(2 * Length(m))
    ensures Length(Leading(x, m)) <= Length(m) + 1 && Length(Guess(x, m, mu)) <= Length(m) + 1
  {
    hide Pow, Length, Guess, Leading;
    var k, q := Length(m), Guess(x, m, mu);
    LongestBelow(m);
    LeadingShort(x, m);
    GuessBounds(x, m, mu);
    PowAdd(k - 1, k + 1);
    MulComm(q, m);
    MulMono(Pow(k - 1), m, q);
    MulComm(q, Pow(k - 1));
    QuotientBelow(q, Pow(k - 1), q * Pow(k - 1), Pow(k + 1));
    LengthBounds(q, k + 1);
  }

  lemma LeadingShort(x: nat, m: nat)
    requires x < Pow(2 * Length(m))
    ensures Length(Leading(x, m)) <= Length(m) + 1
  {
    hide Pow, Length;
    LengthPositive(m);
    DivSmall(x, Length(m));
    LengthBounds(Leading(x, m), Length(m) + 1);
  }

  lemma ResidueFits(c: nat, a: nat, m: nat, mu: nat, room: nat)
    requires RightConstant(m, mu) && c <= m && a < m && room >= TempDigits(Length(mu))
    ensures FactorsFit(c, a, m, mu, room) && SquareFits(a, m, mu, room)
  {
    hide Pow, Length, Guess, Leading, Room, SqrRoom, TempDigits;
    var u := Length(mu);
    ConstantLength(m, mu);
    BelowLength(m);
    LengthPositive(m);
    LengthBounds(c, Length(m));
    LengthBounds(a, Length(m));
    ResidueProduct(c, a, m);
    ResidueProduct(a, a, m);
    OperandsShort(c * a, m, mu);
    OperandsShort(a * a, m, mu);
    TempsEnough(Length(c), Length(a), u);
    TempsEnough(Length(a), Length(a), u);
    TempsEnough(Length(Leading(c * a, m)), u, u);
    TempsEnough(Length(Leading(a * a, m)), u, u);
    TempsEnough(Length(Guess(c * a, m, mu)), Length(m), u);
    TempsEnough(Length(Guess(a * a, m, mu)), Length(m), u);
  }

  lemma {:induction false} ResiduesFit(n: nat, c: nat, a: nat, m: nat, mu: nat, room: nat)
    requires RightConstant(m, mu) && c <= m && a < m && room >= TempDigits(Length(mu))
    ensures RunFits(n, c, a, m, mu, room)
  {
    hide Reduction, FactorsFit, SquareFits, RightConstant, TempDigits;
    ResidueFits(c, a, m, mu, room);
    ResidueProduct(c, a, m);
    ResidueProduct(a, a, m);
    ReductionExact(c * a, m, mu);
    ReductionExact(a * a, m, mu);
    if n / 2 != 0 {
      ModBelow(c * a, m);
      ModBelow(a * a, m);
      ResiduesFit(n / 2, if n % 2 == 1 then (c * a) % m else c, (a * a) % m, m, mu, room);
    }
  }

  lemma ModBelow(x: int, m: nat)
    requires m > 0
    ensures 0 <= x % m < m
  {
  }

  /** Where the constant has an odd number of digits above 32, the estimate for the square of m - 1
      needs two digits more than the temporaries have. */
  lemma SquareOverruns(m: nat, mu: nat)
    requires RightConstant(m, mu) && Length(mu) > MULTIPLY_THRESHOLD && Length(mu) % 2 == 1
    ensures m > 0 && !SquareFits(m - 1, m, mu, Reserved(2 * Length(mu)))
  {
    hide Pow, Length, Guess, Leading, Reduction;
    var u := Length(mu);
    ConstantLength(m, mu);
    LeadingOfSquare(m);
    OverrunRoom(Length(Leading((m - 1) * (m - 1), m)), u);
  }

  lemma OverrunRoom(a: nat, u: nat)
    requires u > MULTIPLY_THRESHOLD && u % 2 == 1 && a > Half(u)
    ensures Room(MULTIPLY_THRESHOLD, a, u) > Reserved(2 * u)
  {
    RoomExact(MULTIPLY_THRESHOLD, a, u);
  }

  lemma LeadingOfSquare(m: nat)
    requires Length(m) >= 3
    ensures m > 0 && Length(Leading((m - 1) * (m - 1), m)) >= Length(m) - 2
  {
    hide Pow, Length;
    var k := Length(m);
    LengthBounds(m, k - 1);
    PositiveLong(m);
    LongestBelow(m);
    PowUp(k - 1);
    var y, p := m - 1, Pow(k - 2);
    MulMono(p, y, y);
    MulMono(p, y, p);
    MulComm(p, y);
    PowAdd(k - 2, k - 2);
    if k == 3 {
      LengthPositive(Leading(y * y, m));
    } else {
      PowAdd(k - 3, k - 1);
      MulComm(Pow(k - 3), Pow(k - 1));
      QuotientLeastPow(y * y, Pow(k - 1), Pow(k - 3));
      LengthBounds(Leading(y * y, m), k - 3);
    }
  }

  lemma PositiveLong(m: nat)
    requires Length(m) >= 2
    ensures m > 0
  {
  }

  lemma QuotientLeastPow(x: nat, p: nat, q: nat)
    requires p > 0 && p * q <= x
    ensures x / p >= q
  {
    var e := x / p;
    assert x < (e + 1) * p by {
      MulDist(e, 1, p);
    }
    MulComm(p, q);
    if e < q {
      MulMono(e + 1, q, p);
    }
  }

  /** The temporaries of s_embar are long enough for all residues and exponents exactly if the
      right constant has at most 32 digits or an even number of them. */
  lemma TempsExact(m: nat, mu: nat)
    requires RightConstant(m, mu)
    ensures (forall n: nat, a: nat :: a < m ==> RunFits(n, 1, a, m, mu, Reserved(2 * Length(mu))))
            <==> Length(mu) <= MULTIPLY_THRESHOLD || Length(mu) % 2 == 0
  {
    hide RunFits, RightConstant, SquareFits, Length, Reserved, TempDigits;
    var room := Reserved(2 * Length(mu));
    PositiveModulus(m, mu);
    TempsReserved(Length(mu));
    if Length(mu) <= MULTIPLY_THRESHOLD || Length(mu) % 2 == 0 {
      ReservedEnough(2 * Length(mu));
      forall n: nat, a: nat | a < m
        ensures RunFits(n, 1, a, m, mu, room)
      {
        ResiduesFit(n, 1, a, m, mu, room);
      }
    } else {
      SquareOverruns(m, mu);
      FirstSquare(2, 1, m - 1, m, mu, room);
      assert !RunFits(2, 1, m - 1, m, mu, room);
    }
  }

  lemma PositiveModulus(m: nat, mu: nat)
    requires RightConstant(m, mu)
    ensures m > 0
  {
  }

  lemma ReservedEnough(prec: nat)
    ensures Reserved(prec) >= prec
  {
  }

  lemma FirstSquare(n: nat, c: nat, a: nat, m: nat, mu: nat, room: nat)
    requires n / 2 != 0 && !SquareFits(a, m, mu, room)
    ensures !RunFits(n, c, a, m, mu, room)
  {
    hide SquareFits, Reduction, FactorsFit;
  }

  // ---- s_embar ----

  /** The numbers s_embar works on share nothing; the temporaries have at least room digits. */
  ghost predicate Ready(a: MpInt, c: MpInt, m: MpInt, mu: MpInt, t0: MpInt, t1: MpInt, t2: MpInt, room: nat)
    reads a, a.digits, c, c.digits, m, m.digits, mu, mu.digits, t0, t1, t2
  {
    && Modulus(m, mu) && Temps(t0, m, mu, t1, t2)
    && Apart(a, c) && Apart(a, m) && Apart(a, mu) && Apart(a, t0) && Apart(a, t1) && Apart(a, t2)
    && Apart(c, m) && Apart(c, mu) && Apart(c, t0) && Apart(c, t1) && Apart(c, t2)
    && a.Valid() && c.Valid() && !c.negative
    && t0.Sized() && t1.Sized() && t2.Sized() && !t0.negative && !t2.negative
    && t0.digits.Length >= room && t1.digits.Length >= room && t2.digits.Length >= room
  }

  /** Lines 3324-3330: c becomes c * a, reduced. */
  method MulMod(a: MpInt, c: MpInt, m: MpInt, mu: MpInt, t0: MpInt, t1: MpInt, t2: MpInt, room: nat)
    returns (inside: bool)
    requires Ready(a, c, m, mu, t0, t1, t2, room)
    modifies c, c.digits, t0, t0.digits, t1, t1.digits, t2, t2.digits
    ensures Kept(c) && Kept(t0) && Kept(t1) && Kept(t2)
    ensures inside <==> FactorsFit(old(c.Mag()), a.Mag(), m.Mag(), mu.Mag(), room)
    ensures inside ==> Ready(a, c, m, mu, t0, t1, t2, room)
    ensures inside ==> c.Mag() == Reduction(old(c.Mag()) * a.Mag(), m.Mag(), mu.Mag())
  {
    hide Val, Run, Canonical, Length, Room, Reduction, ReductionFits;
    inside := Product(c, a, t0, room);
    if !inside {
      return;
    }
    inside := Reduce(t0, m, mu, t1, t2, room);
    if inside {
      Copy(t0, c);
    }
  }

  /** Lines 3334-3342: a becomes a * a, reduced. */
  method SqrMod(a: MpInt, c: MpInt, m: MpInt, mu: MpInt, t0: MpInt, t1: MpInt, t2: MpInt, room: nat)
    returns (inside: bool)
    requires Ready(a, c, m, mu, t0, t1, t2, room)
    modifies a, a.digits, t0, t0.digits, t1, t1.digits, t2, t2.digits
    ensures Kept(a) && Kept(t0) && Kept(t1) && Kept(t2)
    ensures inside <==> SquareFits(old(a.Mag()), m.Mag(), mu.Mag(), room)
    ensures inside ==> Ready(a, c, m, mu, t0, t1, t2, room) && c.Mag() == old(c.Mag())
    ensures inside ==> a.Mag() == Reduction(old(a.Mag()) * old(a.Mag()), m.Mag(), mu.Mag())
  {
    hide Val, Run, Canonical, Length, SqrRoom, Reduction, ReductionFits;
    LengthOf(Run(a.digits, 0, a.used));
    inside := SqrRoom(MULTIPLY_THRESHOLD, a.used) <= room;
    if !inside {
      return;
    }
    USqrTo(a, t0);
    inside := Reduce(t0, m, mu, t1, t2, room);
    if inside {
      Copy(t0, a);
    }
  }

  /** What a run of s_embar from here on would deliver, and whether it stays inside. */
  ghost predicate Delivers(n: nat, a: MpInt, c: MpInt, m: MpInt, mu: MpInt, room: nat, p: nat, f: bool)
    requires a.Sized() && c.Sized() && m.Sized() && mu.Sized()
    reads a, a.digits, c, c.digits, m, m.digits, mu, mu.digits
  {
    && Powered(n, c.Mag(), a.Mag(), m.Mag(), mu.Mag()) == p
    && (RunFits(n, c.Mag(), a.Mag(), m.Mag(), mu.Mag(), room) <==> f)
  }

  /** One bit of the exponent with more to come (lines 3319-3344). */
  method OneBit(odd: bool, a: MpInt, c: MpInt, m: MpInt, mu: MpInt, t0: MpInt, t1: MpInt, t2: MpInt, room: nat,
                ghost n: nat, ghost p: nat, ghost f: bool)
    returns (inside: bool)
    requires Ready(a, c, m, mu, t0, t1, t2, room) && n / 2 > 0 && (odd <==> n % 2 == 1)
    requires Delivers(n, a, c, m, mu, room, p, f)
    modifies a, a.digits, c, c.digits, t0, t0.digits, t1, t1.digits, t2, t2.digits
    ensures Kept(a) && Kept(c) && Kept(t0) && Kept(t1) && Kept(t2)
    ensures inside ==> Ready(a, c, m, mu, t0, t1, t2, room) && Delivers(n / 2, a, c, m, mu, room, p, f)
    ensures !inside ==> !f
  {
    hide Val, Run, Canonical, Reduction, FactorsFit, SquareFits;
    inside := true;
    if odd {
      inside := MulMod(a, c, m, mu, t0, t1, t2, room);
      if !inside {
        return;
      }
    }
    inside := SqrMod(a, c, m, mu, t0, t1, t2, room);
  }

  /** Lines 3319-3345: the bits of one low-order digit of the exponent. */
  method LowDigit(digit0: digit, ghost rest: nat, a: MpInt, c: MpInt, m: MpInt, mu: MpInt,
                  t0: MpInt, t1: MpInt, t2: MpInt, room: nat, ghost p: nat, ghost f: bool)
    returns (inside: bool)
    requires Ready(a, c, m, mu, t0, t1, t2, room) && rest > 0
    requires Delivers(digit0 + RADIX * rest, a, c, m, mu, room, p, f)
    modifies a, a.digits, c, c.digits, t0, t0.digits, t1, t1.digits, t2, t2.digits
    ensures Kept(a) && Kept(c) && Kept(t0) && Kept(t1) && Kept(t2)
    ensures inside ==> Ready(a, c, m, mu, t0, t1, t2, room) && Delivers(rest, a, c, m, mu, room, p, f)
    ensures !inside ==> !f
  {
    hide Val, Run, Canonical, Pow, Pow2, Delivers;
    var d: nat, i := digit0, DIGIT_BIT;
    Pow2Radix();
    inside := true;
    while i > 0
      invariant inside && 0 <= i <= DIGIT_BIT && d < Pow2(i)
      invariant Ready(a, c, m, mu, t0, t1, t2, room) && Kept(a) && Kept(c) && Kept(t0) && Kept(t1) && Kept(t2)
      invariant Delivers(d + Pow2(i) * rest, a, c, m, mu, room, p, f)
    {
      LowBit(d, i, rest);
      MulMono(1, Pow2(i - 1), rest);
      inside := OneBit(d % 2 == 1, a, c, m, mu, t0, t1, t2, room, d + Pow2(i) * rest, p, f);
      if !inside {
        return;
      }
      i, d := i - 1, d / 2;
    }
    Units();
  }

  lemma LowBit(d: nat, i: nat, rest: nat)
    requires i > 0 && d < Pow2(i)
    ensures (d + Pow2(i) * rest) % 2 == d % 2 && (d + Pow2(i) * rest) / 2 == d / 2 + Pow2(i - 1) * rest
    ensures d / 2 < Pow2(i - 1)
  {
    MulAssoc(2, Pow2(i - 1), rest);
  }

  /** Lines 3351-3376: the highest-order digit, which stops at its top bit. */
  method TopDigit(digit0: digit, a: MpInt, c: MpInt, m: MpInt, mu: MpInt, t0: MpInt, t1: MpInt, t2: MpInt,
                  room: nat, ghost p: nat, ghost f: bool)
    returns (inside: bool)
    requires Ready(a, c, m, mu, t0, t1, t2, room) && Delivers(digit0, a, c, m, mu, room, p, f)
    modifies a, a.digits, c, c.digits, t0, t0.digits, t1, t1.digits, t2, t2.digits
    ensures Kept(a) && Kept(c) && (inside <==> f)
    ensures inside ==> c.Valid() && !c.negative && c.Mag() == p
  {
    hide Val, Run, Canonical, Reduction, FactorsFit, SquareFits;
    var d: nat := digit0;
    while true
      invariant Ready(a, c, m, mu, t0, t1, t2, room) && Kept(a) && Kept(c) && Kept(t0) && Kept(t1) && Kept(t2)
      invariant Delivers(d, a, c, m, mu, room, p, f)
      decreases d
    {
      inside := true;
      if d % 2 == 1 {
        inside := MulMod(a, c, m, mu, t0, t1, t2, room);
        if !inside {
          return;
        }
      }
      d := d / 2;
      if d == 0 {
        return;
      }
      inside := SqrMod(a, c, m, mu, t0, t1, t2, room);
      if !inside {
        return;
      }
    }
  }

  /** Lines 3315-3376: all digits of the exponent b, lowest first. */
  method AllDigits(a: MpInt, b: MpInt, m: MpInt, mu: MpInt, c: MpInt, t0: MpInt, t1: MpInt, t2: MpInt, room: nat,
                   ghost p: nat, ghost f: bool)
    returns (inside: bool)
    requires Ready(a, c, m, mu, t0, t1, t2, room) && b.Valid()
    requires Apart(a, b) && Apart(b, c) && Apart(b, t0) && Apart(b, t1) && Apart(b, t2)
    requires Delivers(b.Mag(), a, c, m, mu, room, p, f)
    modifies a, a.digits, c, c.digits, t0, t0.digits, t1, t1.digits, t2, t2.digits
    ensures Kept(a) && Kept(c) && (inside <==> f)
    ensures inside ==> c.Valid() && !c.negative && c.Mag() == p
  {
    hide Val, Run, Canonical, Delivers;
    ghost var s := Run(b.digits, 0, b.used);
    assert s[0..] == s;
    var j := 0;
    while j < b.used - 1
      invariant 0 <= j <= b.used - 1 && Run(b.digits, 0, b.used) == s
      invariant Ready(a, c, m, mu, t0, t1, t2, room) && Kept(a) && Kept(c) && Kept(t0) && Kept(t1) && Kept(t2)
      invariant Delivers(Val(s[j..]), a, c, m, mu, room, p, f)
    {
      SuffixHead(s, j);
      SuffixPositive(s, j + 1);
      inside := LowDigit(b.digits[j], Val(s[j + 1..]), a, c, m, mu, t0, t1, t2, room, p, f);
      if !inside {
        return;
      }
      j := j + 1;
    }
    assert s[j..] == [s[j]];
    ValOne(s[j..]);
    inside := TopDigit(b.digits[j], a, c, m, mu, t0, t1, t2, room, p, f);
  }

  /** What follows a low-order digit is not zero. */
  lemma SuffixPositive(s: seq<digit>, j: nat)
    requires Canonical(s) && 0 < j < |s|
    ensures Val(s[j..]) > 0
  {
    hide Val;
    CanonicalZero(s[j..]);
  }

  method NewTemps(prec: nat) returns (t0: MpInt, t1: MpInt, t2: MpInt)
    ensures fresh({t0, t1, t2}) && fresh({t0.digits, t1.digits, t2.digits})
    ensures Apart(t0, t1) && Apart(t0, t2) && Apart(t1, t2)
    ensures t0.Sized() && t1.Sized() && t2.Sized() && !t0.negative && !t2.negative
    ensures t0.digits.Length == t1.digits.Length == t2.digits.Length == Reserved(prec)
  {
    hide Val, Run, Canonical, Reserved;
    t0 := new MpInt(prec);
    t1 := new MpInt(prec);
    t2 := new MpInt(prec);
  }

  /** s_embar (imath.c:3295), for every constant mu: a is used up.  The temporaries have twice the
      digits of mu, and the run is cut off where a product would touch more. */
  method Embar(a: MpInt, b: MpInt, m: MpInt, mu: MpInt, c: MpInt) returns (inside: bool)
    requires Modulus(m, mu) && a.Valid() && b.Valid() && c.Sized()
    requires Apart(a, b) && Apart(a, c) && Apart(a, m) && Apart(a, mu)
    requires Apart(b, c) && Apart(c, m) && Apart(c, mu)
    modifies a, a.digits, c, c.digits
    ensures Kept(c)
    ensures inside <==>
            RunFits(b.Mag(), 1, old(a.Mag()), m.Mag(), mu.Mag(), Reserved(2 * Length(mu.Mag())))
    ensures inside ==> c.Valid() && !c.negative && c.Mag() == Powered(b.Mag(), 1, old(a.Mag()), m.Mag(), mu.Mag())
  {
    hide Val, Run, Canonical, Powered, RunFits, Length, Reserved;
    LengthOf(Run(mu.digits, 0, mu.used));
    ghost var room := Reserved(2 * mu.used);
    var t0, t1, t2 := NewTemps(2 * mu.used);
    ghost var p := Powered(b.Mag(), 1, a.Mag(), m.Mag(), mu.Mag());
    ghost var f := RunFits(b.Mag(), 1, a.Mag(), m.Mag(), mu.Mag(), room);
    SetOne(c);
    inside := AllDigits(a, b, m, mu, c, t0, t1, t2, Reserved(2 * mu.used), p, f);
  }
}
