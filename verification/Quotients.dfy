/** What the digit loop of s_udiv (imath.c:3430-3476) pushes, told on the two numbers alone: how
    many digits, what they are worth, when that is the quotient, and when they fit the buffer.

    A position whose partial remainder is misjudged takes two or three digits instead of one.  All
    digits pushed after it come too high, so the quotient is too large; and a run can push more
    digits than the dividend has, while the buffer is as long as the dividend, or the default
    precision if that is more.
 */
module Quotients {
  import opened Digits
  import opened DigitLoops
  import opened MpInts
  import opened Shifts

  /** What is pushed for a position with partial remainder r: nothing or a zero where b does not
      fit, one digit where the trial digit is trusted.  From top on it is misjudged: the digit is
      1 until the remainder is below top, and then one digit more is due. */
  function Pushes(r: nat, b: nat, top: nat, pending: bool): nat
    requires b > 0
  {
    if r >= top then (r - top) / b + 2 else if r >= b || pending then 1 else 0
  }

  /** The partial remainder that position i of a starts with. */
  ghost function PartialAt(a: nat, b: nat, i: nat): nat
    requires b > 0
  {
    DivNat(a, Pow(i));
    (a / Pow(i)) % (RADIX * b)
  }

  /** The top digit of a divisor of n digits, one place too high. */
  ghost function TopAt(b: nat, n: nat): nat
    requires n > 0
  {
    DivNat(b, Pow(n - 1));
    (b / Pow(n - 1)) * Pow(n)
  }

  /** Position i of a number a of m digits, by a divisor b of n digits.  The first position is
      the only one that is skipped when b does not fit. */
  ghost function PushedAt(a: nat, b: nat, n: nat, m: nat, i: nat): nat
    requires b > 0 && n > 0
  {
    Pushes(PartialAt(a, b, i), b, TopAt(b, n), i + 1 < m)
  }

  ghost function PushedFrom(a: nat, b: nat, n: nat, m: nat, i: nat): nat
    requires b > 0 && n > 0
    decreases m - i
  {
    if i >= m then 0 else PushedAt(a, b, n, m, i) + PushedFrom(a, b, n, m, i + 1)
  }

  /** All positions. */
  ghost function Pushed(a: nat, b: nat, n: nat, m: nat): nat
    requires b > 0 && n > 0
  {
    PushedFrom(a, b, n, m, 0)
  }

  /** What the digits pushed for one position are worth. */
  ghost function PushedDigits(r: nat, b: nat, top: nat): nat
    requires b > 0
    decreases r
  {
    if r >= top && r >= b then Pow(Pushes(r - b, b, top, false)) + PushedDigits(r - b, b, top)
    else DivNat(r, b); r / b
  }

  ghost function QuotientFrom(a: nat, b: nat, n: nat, m: nat, i: nat): nat
    requires b > 0 && n > 0
    decreases m - i
  {
    if i >= m then 0
    else QuotientFrom(a, b, n, m, i + 1) * Pow(PushedAt(a, b, n, m, i))
         + PushedDigits(PartialAt(a, b, i), b, TopAt(b, n))
  }

  lemma {:induction false} PushedGrows(a: nat, b: nat, n: nat, m: nat, i: nat)
    requires b > 0 && n > 0
    ensures PushedFrom(a, b, n, m, i) <= Pushed(a, b, n, m)
  {
    hide PushedAt;
    if i > 0 {
      PushedGrows(a, b, n, m, i - 1);
    }
  }

  // ---- The buffer ----

  /** The number of digits of v. */
  ghost function Length(v: nat): nat {
    if v < RADIX then 1 else 1 + Length(v / RADIX)
  }

  /** The highest-order digit of v. */
  ghost function TopOf(v: nat): digit {
    if v < RADIX then v else TopOf(v / RADIX)
  }

  lemma {:induction false} LengthOf(s: seq<digit>)
    requires Canonical(s)
    ensures Length(Val(s)) == |s| && TopOf(Val(s)) == s[|s| - 1]
  {
    if |s| == 1 {
      ValOne(s);
    } else {
      var t := s[1..];
      LengthOf(t);
      DivUnique(Val(s), RADIX, Val(t), s[0]);
      CanonicalZero(t);
    }
  }

  lemma {:induction false} TopBelow(v: nat)
    ensures Length(v) > 0
    ensures TopOf(v) * Pow(Length(v) - 1) <= v < (TopOf(v) as int + 1) * Pow(Length(v) - 1)
  {
    if v >= RADIX {
      var w := v / RADIX;
      TopBelow(w);
      var d, p := TopOf(w), Pow(Length(w) - 1);
      MulMono(d * p, w, RADIX);
      MulMono(w + 1, (d as int + 1) * p, RADIX);
      MulAssoc(d, p, RADIX);
      MulAssoc(d as int + 1, p, RADIX);
      MulComm(p, RADIX);
      MulDist(w, 1, RADIX);
    } else {
      assert Pow(0) == 1;
    }
  }

  lemma LengthBounds(v: nat, n: nat)
    ensures v < Pow(n) && n > 0 ==> Length(v) <= n
    ensures v >= Pow(n) ==> Length(v) > n
  {
    hide Pow, Length, TopOf;
    TopBelow(v);
    BelowLength(v);
    if v < Pow(n) && n > 0 && Length(v) > n {
      PowMono(n, Length(v) - 1);
      LongTop(v);
      MulMono(1, TopOf(v), Pow(Length(v) - 1));
    }
    if v >= Pow(n) && Length(v) <= n {
      PowMono(Length(v), n);
    }
  }

  lemma {:induction false} LongTop(v: nat)
    requires Length(v) > 1
    ensures TopOf(v) > 0
  {
    if v >= RADIX && v / RADIX >= RADIX {
      LongTop(v / RADIX);
    }
  }

  lemma {:induction false} ScaledLength(v: nat, s: nat)
    requires 0 < s < RADIX
    ensures Length(v) <= Length(v * s) <= Length(v) + 1
  {
    var w := v * s;
    MulMono(1, s, v);
    MulComm(v, s);
    LengthMono(v, w);
    MulMono(s, RADIX, v);
    LengthMono(w, v * RADIX);
    if v > 0 {
      DivUnique(v * RADIX, RADIX, v, 0);
    }
  }

  lemma {:induction false} LengthMono(v: nat, w: nat)
    requires v <= w
    ensures Length(v) <= Length(w)
    decreases w
  {
    if v >= RADIX {
      LengthMono(v / RADIX, w / RADIX);
    }
  }

  /** The digits fit the buffer that s_udiv sets up for the quotient. */
  ghost predicate Within(a: nat, b: nat, n: nat)
    requires b > 0 && n > 0
  {
    Pushed(a, b, n, Length(a)) <= Reserved(Length(a))
  }

  /** The quotient that the run delivers. */
  ghost function Quotient(a: nat, b: nat, n: nat): nat
    requires b > 0 && n > 0
  {
    QuotientFrom(a, b, n, Length(a), 0)
  }

  // ---- When the quotient is right ----

  /** When long division of a by b is exact, b having n digits and its top bit set: at no
      digit i does the partial remainder reach the divisor's top digit one place too high. */
  ghost predicate DivisionExact(a: nat, b: nat, n: nat)
    requires b > 0 && n > 0
  {
    forall i: nat :: ExactAt(a, b, n, i)
  }

  ghost predicate ExactAt(a: nat, b: nat, n: nat, i: nat)
    requires b > 0 && n > 0
  {
    PartialAt(a, b, i) < TopAt(b, n)
  }

  lemma DivDiv(a: nat, p: nat, q: nat)
    requires p > 0 && q > 0
    ensures p * q > 0 && (a / p) / q == a / (p * q)
  {
    MulMono(1, q, p);
    MulComm(p, q);
    var x, r := a / p, a % p;
    var y, s := x / q, x % q;
    assert a == x * p + r && x == y * q + s;
    NestedQuotient(a, p, q, x, y, r, s);
    DivUnique(a, p * q, y, s * p + r);
  }

  lemma NestedQuotient(a: nat, p: nat, q: nat, x: nat, y: nat, r: nat, s: nat)
    requires a == x * p + r && x == y * q + s && r < p && s < q
    ensures a == y * (p * q) + (s * p + r) && s * p + r < p * q
  {
    MulDist(y * q, s, p);
    MulAssoc(y, q, p);
    MulComm(p, q);
    MulMono(s + 1, q, p);
    MulDist(s, 1, p);
  }

  /** The quotient of the digits from i up, from that of the digits above. */
  lemma QuotientSplit(a: nat, b: nat, i: nat)
    requires b > 0
    ensures a / Pow(i) >= 0 && a / Pow(i + 1) >= 0
    ensures (a / Pow(i)) / b == ((a / Pow(i + 1)) / b) * RADIX + PartialAt(a, b, i) / b
    ensures PartialAt(a, b, i) < RADIX * b
  {
    hide Pow;
    var v, r := a / Pow(i), PartialAt(a, b, i);
    DivNat(a, Pow(i));
    PowUp(i + 1);
    MulComm(RADIX, Pow(i));
    DivDiv(a, Pow(i), RADIX);
    DivDiv(v, RADIX, b);
    SplitMath(v, b, v / (RADIX * b), r);
  }

  lemma SplitMath(v: nat, b: nat, t: nat, r: nat)
    requires b > 0 && v == t * (RADIX * b) + r
    ensures v / b == t * RADIX + r / b
  {
    var q, s := r / b, r % b;
    assert r == q * b + s;
    MulAssoc(t, RADIX, b);
    MulDist(t * RADIX, q, b);
    DivUnique(v, b, t * RADIX + q, s);
  }

  lemma PushesNext(r: nat, r': nat, b: nat, top: nat)
    requires b > 0 && 2 * b <= top && r >= b
    requires if r >= top then r' == r - b else r' < b
    ensures forall p :: Pushes(r, b, top, p) == 1 + Pushes(r', b, top, false)
  {
    if r >= top {
      if r - top < b {
        DivUnique(r - top, b, 0, r - top);
      } else {
        var q := (r - top - b) / b;
        MulDist(q, 1, b);
        DivUnique(r - top, b, q + 1, (r - top - b) % b);
      }
    }
  }

  /** What is pushed for one position, after digits worth w, where t are right: the digit that is
      due, or too much if the position is misjudged. */
  lemma PositionWorth(w: nat, t: nat, r: nat, b: nat, top: nat, pending: bool)
    requires b > 0 && 2 * b <= top && r < RADIX * b && w >= t && (!pending ==> w == 0)
    ensures var v := w * Pow(Pushes(r, b, top, pending)) + PushedDigits(r, b, top);
            && v >= t * RADIX + r / b
            && (v == t * RADIX + r / b <==> w == t && r < top)
  {
    hide PushedDigits, Pow;
    DivNat(r, b);
    MulMono(t, w, RADIX);
    if r >= top {
      MisjudgedWorth(w, r, b, top, pending);
      QuotientLess(r, b);
    } else {
      TrustedWorth(w, r, b, top, pending);
      if r < b && !pending {
        DivUnique(r, b, 0, r);
      }
    }
  }

  lemma MisjudgedWorth(w: nat, r: nat, b: nat, top: nat, pending: bool)
    requires b > 0 && 2 * b <= top <= r
    ensures w * Pow(Pushes(r, b, top, pending)) + PushedDigits(r, b, top) >= w * RADIX + RADIX
  {
    hide Pow;
    PushesNext(r, r - b, b, top);
    var p := Pushes(r - b, b, top, false);
    PowMono(1, p);
    PowMono(1, p + 1);
    PowUp(1);
    Units();
    MulMono(RADIX, Pow(p + 1), w);
    MulComm(w, RADIX);
    MulComm(w, Pow(p + 1));
  }

  lemma TrustedWorth(w: nat, r: nat, b: nat, top: nat, pending: bool)
    requires b > 0 && r < top && (!pending ==> w == 0)
    ensures w * Pow(Pushes(r, b, top, pending)) + PushedDigits(r, b, top) == w * RADIX + r / b
  {
    hide Pow;
    PowUp(1);
    Units();
    assert w * 1 == w;
  }

  lemma QuotientLess(r: nat, b: nat)
    requires b > 0 && r < RADIX * b
    ensures r / b < RADIX
  {
    var q := r / b;
    assert q * b <= r;
    if q >= RADIX {
      MulMono(RADIX, q, b);
    }
  }

  lemma {:induction false} QuotientFromExact(a: nat, b: nat, n: nat, m: nat, i: nat)
    requires n > 0 && b > 0 && 2 * b <= TopAt(b, n) && a < Pow(m) && i <= m
    ensures a / Pow(i) >= 0 && QuotientFrom(a, b, n, m, i) >= (a / Pow(i)) / b
    ensures QuotientFrom(a, b, n, m, i) == (a / Pow(i)) / b <==>
            forall j: nat :: i <= j < m ==> ExactAt(a, b, n, j)
    decreases m - i
  {
    hide Pow, PartialAt, TopAt, Pushes, PushedDigits;
    DivNat(a, Pow(i));
    if i == m {
      DivUnique(a, Pow(m), 0, a);
      DivUnique(0, b, 0, 0);
    } else {
      QuotientFromExact(a, b, n, m, i + 1);
      QuotientSplit(a, b, i);
      var w, t := QuotientFrom(a, b, n, m, i + 1), (a / Pow(i + 1)) / b;
      DivNat(a, Pow(i + 1));
      DivNat(a / Pow(i + 1), b);
      PositionWorth(w, t, PartialAt(a, b, i), b, TopAt(b, n), i + 1 < m);
      assert ExactAt(a, b, n, i) <==> PartialAt(a, b, i) < TopAt(b, n);
    }
  }

  /** The quotient delivered is never too small, and it is right exactly for the inputs that
      divide exactly. */
  lemma QuotientExact(a: nat, b: nat, n: nat)
    requires n > 0 && b > 0 && 2 * b <= TopAt(b, n)
    ensures Quotient(a, b, n) >= a / b
    ensures Quotient(a, b, n) == a / b <==> DivisionExact(a, b, n)
  {
    hide Pow, PartialAt, TopAt, QuotientFrom;
    var m := Length(a);
    BelowLength(a);
    QuotientFromExact(a, b, n, m, 0);
    Units();
    assert Pow(0) == 1;
    DivUnique(a, 1, a, 0);
    forall i: nat | i >= m
      ensures ExactAt(a, b, n, i)
    {
      BeyondLength(a, b, m, i);
    }
  }

  lemma BeyondLength(a: nat, b: nat, m: nat, i: nat)
    requires b > 0 && a < Pow(m) && i >= m
    ensures PartialAt(a, b, i) == 0
  {
    hide Pow;
    PowMono(m, i);
    DivUnique(a, Pow(i), 0, a);
    DivUnique(0, RADIX * b, 0, 0);
  }

  // ---- Small numbers ----

  /** No position takes more than three digits, and the first n positions take at most one. */
  lemma PushedAtMost(a: nat, b: nat, n: nat, m: nat, i: nat)
    requires 0 < n && Pow(n) <= 2 * b && b < Pow(n) && a < Pow(m) && i < m
    ensures PushedAt(a, b, n, m, i) <= if i + n < m then 3 else 1
  {
    hide Pow, Pushes, PartialAt, TopAt;
    TopBounds(b, n);
    PartialBelow(a, b, m, i);
    if i + n >= m {
      PowMono(m - i, n);
    }
    PushesAtMost(PartialAt(a, b, i), b, TopAt(b, n), i + 1 < m, Pow(n));
  }

  lemma PartialBelow(a: nat, b: nat, m: nat, i: nat)
    requires b > 0 && a < Pow(m) && i <= m
    ensures PartialAt(a, b, i) < Pow(m - i) && PartialAt(a, b, i) < RADIX * b
  {
    hide Pow;
    QuotientBelowPow(a, m, i);
    ModLe(a / Pow(i), RADIX * b);
  }

  lemma PushesAtMost(r: nat, b: nat, top: nat, pending: bool, p: nat)
    requires 0 < p <= 2 * b && p <= top && RADIX * b < top + p && r < RADIX * b
    ensures Pushes(r, b, top, pending) <= if r < p then 1 else 3
  {
    if r >= top {
      SmallQuotient(r - top, b);
    }
  }

  lemma TopBounds(b: nat, n: nat)
    requires 0 < n && Pow(n) <= 2 * b && b < Pow(n)
    ensures Pow(n) <= TopAt(b, n) && RADIX * b < TopAt(b, n) + Pow(n)
    ensures 2 * b <= TopAt(b, n)
  {
    hide Pow;
    var p := Pow(n - 1);
    var t := b / p;
    PowUp(n);
    assert b == t * p + b % p;
    if t < 2 {
      MulMono(t, 1, p);
      assert false;
    }
    MulMono(1, t, Pow(n));
    MulMono(2, t, Pow(n));
    MulDist2(RADIX, t * p, b % p);
    MulAssoc(RADIX, t, p);
    MulComm(RADIX, t);
    MulAssoc(t, RADIX, p);
  }

  lemma PowUp(n: nat)
    requires n > 0
    ensures Pow(n) == RADIX * Pow(n - 1)
  {
  }

  lemma SmallQuotient(x: nat, b: nat)
    requires x < 2 * b
    ensures x / b <= 1
  {
    if x < b {
      DivUnique(x, b, 0, x);
    } else {
      DivUnique(x, b, 1, x - b);
    }
  }

  lemma ModLe(x: nat, y: nat)
    requires y > 0
    ensures x % y <= x && x % y < y
  {
  }

  lemma QuotientBelowPow(a: nat, m: nat, i: nat)
    requires a < Pow(m) && i <= m
    ensures a / Pow(i) < Pow(m - i)
  {
    hide Pow;
    PowAdd(i, m - i);
    MulComm(Pow(i), Pow(m - i));
    var q := a / Pow(i);
    assert q * Pow(i) <= a;
    if q >= Pow(m - i) {
      MulMono(Pow(m - i), q, Pow(i));
    }
  }

  lemma {:induction false} PushedFromAtMost(a: nat, b: nat, n: nat, m: nat, i: nat)
    requires 0 < n && Pow(n) <= 2 * b && b < Pow(n) && a < Pow(m) && i <= m
    ensures PushedFrom(a, b, n, m, i) <= (m - i) + 2 * (if i + n < m then m - n - i else 0)
    decreases m - i
  {
    hide PushedAt, Pow;
    if i < m {
      PushedAtMost(a, b, n, m, i);
      PushedFromAtMost(a, b, n, m, i + 1);
    }
  }

  /** A dividend of at most 22 digits always stays within the buffer, and so does any other that is
      not much longer than its divisor. */
  lemma SmallWithin(a: nat, b: nat, n: nat)
    requires 0 < n && Pow(n) <= 2 * b && b < Pow(n)
    ensures var m := Length(a);
            m <= 22 || m <= n || 3 * m <= 2 * n + Reserved(m) ==> Within(a, b, n)
  {
    hide Pow, PushedFrom;
    var m := Length(a);
    BelowLength(a);
    PushedFromAtMost(a, b, n, m, 0);
  }

  lemma {:induction false} BelowLength(v: nat)
    ensures v < Pow(Length(v))
  {
    if v < RADIX {
      assert Pow(1) == RADIX * Pow(0);
    } else {
      BelowLength(v / RADIX);
      MulMono(v / RADIX + 1, Pow(Length(v / RADIX)), RADIX);
    }
  }

  /** Without a misjudged position every position takes at most one digit, which always fits. */
  lemma {:induction false} ExactPushes(a: nat, b: nat, n: nat, m: nat, i: nat)
    requires b > 0 && n > 0 && i <= m
    requires forall j: nat :: j < m ==> PartialAt(a, b, j) < TopAt(b, n)
    ensures PushedFrom(a, b, n, m, i) <= m - i
    decreases m - i
  {
    hide PartialAt, TopAt;
    if i < m {
      ExactPushes(a, b, n, m, i + 1);
    }
  }

  // ---- Dividends that leave the buffer ----

  /** 2^63 + 2^32 - 1. */
  const BAD_DIVISOR: nat := RADIX / 2 * RADIX + RADIX - 1

  const BAD_REMAINDER: nat := RADIX / 2 * RADIX + RADIX / 2 - 3

  /** Every further digit leads back to the same remainder, and every position from the third one
      on is misjudged. */
  ghost function BadDividend(k: nat): nat {
    if k == 0 then BAD_REMAINDER else BadDividend(k - 1) * RADIX + (RADIX / 2 - 1)
  }

  lemma {:induction false} BadLength(k: nat)
    ensures Length(BadDividend(k)) == k + 2
  {
    if k == 0 {
      var h := RADIX / 2;
      DivUnique(BAD_REMAINDER, RADIX, h, h - 3);
      assert Length(h) == 1;
    } else {
      BadLength(k - 1);
      DivUnique(BadDividend(k), RADIX, BadDividend(k - 1), RADIX / 2 - 1);
    }
  }

  lemma {:induction false} BadSuffix(k: nat, i: nat)
    requires i <= k + 1
    ensures BadDividend(k) / Pow(i) == if i <= k then BadDividend(k - i) else RADIX / 2
  {
    var h := RADIX / 2;
    if i == 0 {
      DivUnique(BadDividend(k), 1, BadDividend(k), 0);
    } else if k == 0 {
      assert Pow(1) == RADIX * Pow(0);
      DivUnique(BAD_REMAINDER, RADIX, h, h - 3);
    } else {
      BadSuffix(k - 1, i - 1);
      DivDown(BadDividend(k), BadDividend(k - 1), h - 1, Pow(i - 1));
    }
  }

  lemma DivDown(v: nat, w: nat, d: nat, p: nat)
    requires v == w * RADIX + d && d < RADIX && p > 0
    ensures v / (RADIX * p) == w / p
  {
    var q, r := w / p, w % p;
    assert w == q * p + r;
    MulDist(q * p, r, RADIX);
    MulAssoc(q, p, RADIX);
    MulComm(p, RADIX);
    MulMono(r + 1, p, RADIX);
    MulDist(r, 1, RADIX);
    DivUnique(v, RADIX * p, q, r * RADIX + d);
  }

  lemma {:induction false} BadRemainder(k: nat)
    ensures BadDividend(k) % BAD_DIVISOR == BAD_REMAINDER
    ensures BadDividend(k) % (RADIX * BAD_DIVISOR)
         == if k == 0 then BAD_REMAINDER else BAD_REMAINDER * RADIX + (RADIX / 2 - 1)
  {
    var b, r, h := BAD_DIVISOR, BAD_REMAINDER, RADIX / 2;
    if k == 0 {
      DivUnique(r, b, 0, r);
      DivUnique(r, RADIX * b, 0, r);
    } else {
      BadRemainder(k - 1);
      var v := BadDividend(k - 1);
      var q := v / b;
      assert v == q * b + r;
      BadStep(v * RADIX + (h - 1), v, q);
      DivUnique(BadDividend(k), RADIX * b, q, r * RADIX + (h - 1));
      DivUnique(BadDividend(k), b, q * RADIX + (RADIX - 2), r);
    }
  }

  lemma BadStep(v': nat, v: nat, q: nat)
    requires v == q * BAD_DIVISOR + BAD_REMAINDER && v' == v * RADIX + (RADIX / 2 - 1)
    ensures v' == q * (RADIX * BAD_DIVISOR) + (BAD_REMAINDER * RADIX + (RADIX / 2 - 1))
    ensures v' == (q * RADIX + (RADIX - 2)) * BAD_DIVISOR + BAD_REMAINDER
  {
  }

  lemma BadPushes(k: nat, i: nat)
    requires i <= k + 1
    ensures PushedAt(BadDividend(k), BAD_DIVISOR, 2, k + 2, i) == if i < k then 2 else if i == k then 1 else 0
  {
    var b, r, h := BAD_DIVISOR, BAD_REMAINDER, RADIX / 2;
    BadSuffix(k, i);
    assert Pow(1) == RADIX * Pow(0) && Pow(2) == RADIX * Pow(1);
    DivUnique(b, Pow(1), h, RADIX - 1);
    var top := h * (RADIX * RADIX);
    if i <= k {
      BadRemainder(k - i);
      if i < k {
        DivUnique(r * RADIX + (h - 1) - top, b, 0, r * RADIX + (h - 1) - top);
      }
    } else {
      DivUnique(h, RADIX * b, 0, h);
    }
  }

  lemma {:induction false} BadPushesFrom(k: nat, i: nat)
    requires i <= k
    ensures PushedFrom(BadDividend(k), BAD_DIVISOR, 2, k + 2, i) == 2 * (k - i) + 1
    decreases k - i
  {
    hide BadDividend, PushedAt;
    BadPushes(k, i);
    if i < k {
      BadPushesFrom(k, i + 1);
    } else {
      BadPushes(k, k + 1);
      assert PushedFrom(BadDividend(k), BAD_DIVISOR, 2, k + 2, k + 2) == 0;
    }
  }

  /** A normalised divisor of two digits and dividends of every length: from 34 digits on the run
      leaves the buffer, and the longer they are the further. */
  lemma BufferTooShort(k: nat)
    ensures Length(BadDividend(k)) == k + 2
    ensures Pushed(BadDividend(k), BAD_DIVISOR, 2, k + 2) == 2 * k + 1
    ensures Within(BadDividend(k), BAD_DIVISOR, 2) <==> k < 32
  {
    hide BadDividend, PushedFrom, Length;
    BadLength(k);
    BadPushesFrom(k, 0);
  }
}
