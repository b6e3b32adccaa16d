/** s_udiv (imath.c:3393): long division after Knuth, with the trial digit as the source
    computes it.

    Where a partial remainder that is one digit longer than the divisor begins with the divisor's
    top digit or more, the trial digit is 1 although a digit near RADIX is due.  The remainder
    does not suffer, but the quotient does: `DivisionExact` says of the two numbers alone when
    it is right.  And such a position takes more than one place in the buffer of the quotient:
    `Within` says when the run stays inside.
 */
module Division {
  import opened Digits
  import opened DigitLoops
  import opened MpInts
  import opened Shifts
  import opened Quotients

  // ---- The trial digit ----

  /** Lines 3446-3458: top and next are the two leading digits of the partial remainder. */
  function TrialDigit(top: digit, next: digit, used: nat, btop: digit): nat
    requires btop > 0
  {
    DivNat(top * RADIX + next, btop);
    DivNat(top, btop);
    var pfx := if used > 1 && (top < btop || next == 0) then top * RADIX + next else top;
    var q := pfx / btop;
    if q > RADIX - 1 then 1 else q
  }

  function Next(r: seq<digit>): digit {
    if |r| > 1 then r[|r| - 2] else 0
  }

  /** The case the trial digit gets wrong. */
  predicate Misjudged(r: seq<digit>, b: seq<digit>)
    requires |r| > 0 && |b| > 0
  {
    |r| == |b| + 1 && r[|r| - 1] >= b[|b| - 1]
  }

  ghost predicate Trial(r: seq<digit>, b: seq<digit>) {
    && Canonical(r) && Canonical(b)
    && b[|b| - 1] >= RADIX / 2
    && Val(b) <= Val(r) < RADIX * Val(b)
  }

  lemma TrialLength(r: seq<digit>, b: seq<digit>)
    requires Trial(r, b)
    ensures |r| == |b| || |r| == |b| + 1
    ensures Val(b) > 0
  {
    hide Val, Pow, At;
    CanonicalByValue(r);
    CanonicalByValue(b);
    ValBound(r);
    ValBound(b);
    ValTop(b);
    AtMono(1, b[|b| - 1], |b| - 1);
    AtPow(1, |b| - 1);
    PowStep(|b|);
    MulMono(Val(b), Pow(|b|), RADIX);
    if |r| < |b| {
      PowMono(|r|, |b| - 1);
    } else if |r| > |b| + 1 {
      PowMono(|b| + 1, |r| - 1);
    }
  }

  lemma PowStep(n: nat)
    ensures Pow(n + 1) == RADIX * Pow(n)
  {
  }

  /** Knuth's estimate on values: dividing the leading digits by btop is never too small and,
      as btop is at least half of RADIX, at most two too large. */
  lemma TrialMath(r: nat, b: nat, x: nat, btop: nat, p: nat)
    requires p > 0 && RADIX / 2 <= btop < RADIX
    requires x * p <= r < (x + 1) * p
    requires btop * p <= b < (btop + 1) * p
    requires x < btop * RADIX
    ensures r / b <= x / btop <= r / b + 2
  {
    var q, e := r / b, x / btop;
    DivNat(r, b);
    DivNat(x, btop);
    TrialLow(r, b, x, btop, p, q);
    TrialHigh(r, b, x, btop, p, q, e);
  }

  lemma TrialLow(r: nat, b: nat, x: nat, btop: nat, p: nat, q: nat)
    requires p > 0 && btop > 0 && b > 0
    requires r < (x + 1) * p && btop * p <= b && q * b <= r
    ensures q <= x / btop
  {
    assert q * btop < x + 1 by {
      MulMono(btop * p, b, q);
      MulComm(q, btop * p);
      MulComm(q, b);
      MulAssoc(q, btop, p);
      if q * btop >= x + 1 {
        MulMono(x + 1, q * btop, p);
      }
    }
    QuotientLeast(q, x, btop);
  }

  lemma QuotientLeast(q: nat, x: nat, d: nat)
    requires d > 0 && q * d <= x
    ensures q <= x / d
  {
    var e := x / d;
    assert x < (e + 1) * d by {
      MulDist(e, 1, d);
    }
    if q > e {
      MulMono(e + 1, q, d);
    }
  }

  lemma TrialHigh(r: nat, b: nat, x: nat, btop: nat, p: nat, q: nat, e: nat)
    requires p > 0 && RADIX / 2 <= btop < RADIX
    requires x * p <= r && b < (btop + 1) * p && x < btop * RADIX
    requires r < (q + 1) * b && e * btop <= x
    ensures e <= q + 2
  {
    // e * btop <= x < (q + 1)(btop + 1), so (e - q - 1) * btop <= q + 1 < RADIX + 1.
    assert x < (q + 1) * (btop + 1) by {
      MulMono(b, (btop + 1) * p, q + 1);
      MulComm(q + 1, b);
      MulComm(q + 1, (btop + 1) * p);
      MulAssoc(q + 1, btop + 1, p);
      if x >= (q + 1) * (btop + 1) {
        MulMono((q + 1) * (btop + 1), x, p);
      }
    }
    assert e < RADIX by {
      if e >= RADIX {
        MulMono(RADIX, e, btop);
        MulComm(RADIX, btop);
      }
    }
    MulDist2(q + 1, btop, 1);
    MulDist(e, q + 1, btop);
    if e - (q + 1) >= 2 {
      MulMono(2, e - (q + 1), btop);
    }
  }

  /** What the trial digit is worth: exact up to 2 where it is trusted, 1 where it is wrong. */
  lemma TrialBounds(r: seq<digit>, b: seq<digit>)
    requires Trial(r, b)
    ensures |r| > 0 && |b| > 0 && Val(b) > 0
    ensures var q := TrialDigit(r[|r| - 1], Next(r), |r|, b[|b| - 1]);
            && 1 <= q < RADIX
            && (!Misjudged(r, b) ==> Val(r) / Val(b) <= q <= Val(r) / Val(b) + 2)
            && (Misjudged(r, b) ==> q == 1 && 2 * Val(b) <= Val(r))
  {
    hide Val, Pow, At;
    TrialLength(r, b);
    if |r| == |b| {
      TrialSame(r, b);
    } else if Misjudged(r, b) {
      TrialWrong(r, b);
    } else {
      TrialLonger(r, b);
    }
  }

  /** A partial remainder as long as b fits once: the digit is 1. */
  lemma TrialSame(r: seq<digit>, b: seq<digit>)
    requires Trial(r, b) && |r| == |b|
    ensures Val(b) > 0 && Val(r) / Val(b) == 1
    ensures TrialDigit(r[|r| - 1], Next(r), |r|, b[|b| - 1]) == 1
  {
    hide Val, Pow;
    TrialLength(r, b);
    var n, top, btop := |b| - 1, r[|r| - 1], b[|b| - 1];
    ValTop(r);
    ValTop(b);
    assert top >= btop by {
      if top < btop {
        AtMono(top as int + 1, btop, n);
      }
    }
    assert Val(r) < 2 * Val(b) by {
      AtMono(top as int + 1, btop as int + btop, n);
      AtSum(btop, btop, n);
    }
    DivUnique(Val(r), Val(b), 1, Val(r) - Val(b));
    TopRatio(top, Next(r), |r|, btop);
  }

  lemma TopRatio(top: digit, next: digit, used: nat, btop: digit)
    requires RADIX / 2 <= btop <= top
    ensures TrialDigit(top, next, used, btop) == 1
  {
    DivUnique(top, btop, 1, top - btop);
    if next == 0 {
      MulMono(btop, top, RADIX);
      QuotientLeast(RADIX, top * RADIX, btop);
    }
  }

  lemma TrialWrong(r: seq<digit>, b: seq<digit>)
    requires Trial(r, b) && Misjudged(r, b)
    ensures TrialDigit(r[|r| - 1], Next(r), |r|, b[|b| - 1]) == 1
    ensures 2 * Val(b) <= Val(r)
  {
    hide Val, Pow;
    var n, top, btop := |b|, r[|r| - 1], b[|b| - 1];
    TopRatio(top, Next(r), |r|, btop);
    ValTop(r);
    ValTop(b);
    AtUp(top, n - 1);
    AtMono(2 * (btop as int + 1), Up(top), n - 1);
    AtSum(btop as int + 1, btop as int + 1, n - 1);
  }

  lemma TrialLonger(r: seq<digit>, b: seq<digit>)
    requires Trial(r, b) && |r| == |b| + 1 && !Misjudged(r, b)
    ensures Val(b) > 0
    ensures var q := TrialDigit(r[|r| - 1], Next(r), |r|, b[|b| - 1]);
            1 <= q < RADIX && Val(r) / Val(b) <= q <= Val(r) / Val(b) + 2
  {
    hide Val, Pow, At;
    TrialLength(r, b);
    var n, top, next, btop := |b| - 1, r[|r| - 1], Next(r), b[|b| - 1];
    var x := top * RADIX + next;
    TwoTop(r);
    ValTop(b);
    AtDef(x, n);
    AtDef(x + 1, n);
    AtDef(btop, n);
    AtDef(btop as int + 1, n);
    assert x < btop * RADIX by {
      MulMono(top as int + 1, btop, RADIX);
      MulDist(top, 1, RADIX);
    }
    TrialMath(Val(r), Val(b), x, btop, Pow(n));
    QuotientLeast(1, Val(r), Val(b));
    DivBelow(x, RADIX, btop);
  }

  /** The two leading digits bound a run from both sides. */
  lemma TwoTop(r: seq<digit>)
    requires |r| >= 2
    ensures var x := r[|r| - 1] * RADIX + r[|r| - 2];
            At(x, |r| - 2) <= Val(r) < At(x + 1, |r| - 2)
  {
    hide Val, Pow;
    var n := |r| - 2;
    ValSnoc(r, n + 1);
    ValTop(r[..n + 1]);
    AtUp(r[n + 1], n);
    var up := Up(r[n + 1]);
    assert up == r[n + 1] * RADIX by { MulComm(RADIX, r[n + 1]); }
    AtSum(up, r[n], n);
    AtSum(up, r[n] as int + 1, n);
  }

  // ---- One quotient digit ----

  /** s_dbmul (imath.c:2861) into a zeroed buffer. */
  method DbMul(da: array<digit>, b: digit, dc: array<digit>, size: nat)
    requires size <= da.Length && size < dc.Length && dc != da
    requires forall k :: 0 <= k <= size ==> dc[k] == 0
    modifies dc
    ensures Val(Run(dc, 0, size + 1)) == b * Val(Run(da, 0, size))
    ensures OnlyRun(dc, 0, size + 1)
  {
    hide Val, At, Lower, Upper, Run;
    Empty();
    ghost var a, zero := Run(da, 0, size), Run(dc, 0, size);
    ValZeros(zero);
    var j, w: word := 0, 0;
    while j < size
      invariant j <= size && w < RADIX
      invariant Val(Run(dc, 0, j)) + At(w, j) == Val(zero[..j]) + b * Val(a[..j])
      invariant OnlyRun(dc, 0, j)
    {
      ghost var c, k := Run(dc, 0, j), w;
      MulFits(da[j], b, w, 0);
      MulComm(da[j], b);
      w := (da[j] as int) * b + w;
      dc[j] := Lower(w);
      MulStep(c, Run(dc, 0, j + 1), b, a, zero, k, w);
      w := Upper(w);
      j := j + 1;
    }
    assert a[..j] == a && zero[..j] == zero;
    ghost var c := Run(dc, 0, size);
    AtZero(size);
    LowerDigit(w);
    if w != 0 {
      dc[size] := Lower(w);
    }
    SnocVal(c, Run(dc, 0, size + 1), w);
  }

  lemma LowerDigit(w: nat)
    requires w < RADIX
    ensures Lower(w) == w
  {
  }

  /** The partial remainder: ru digits of a from ro up, sharing a's buffer. */
  ghost function Window(a: MpInt, ro: nat, ru: nat): seq<digit>
    requires ro + ru <= a.digits.Length
    reads a, a.digits
  {
    Run(a.digits, ro, ru)
  }

  /** CLAMP on the window. */
  method ClampWindow(a: MpInt, ro: nat, n: nat) returns (ru: nat)
    requires 0 < n && ro + n <= a.digits.Length
    ensures 1 <= ru <= n && Canonical(Window(a, ro, ru))
    ensures Val(Window(a, ro, ru)) == Val(Window(a, ro, n))
    ensures forall k :: ro + ru <= k < ro + n ==> a.digits[k] == 0
  {
    hide Val;
    ru := n;
    while ru > 1 && a.digits[ro + ru - 1] == 0
      invariant 1 <= ru <= n
      invariant forall k :: ro + ru <= k < ro + n ==> a.digits[k] == 0
    {
      ru := ru - 1;
    }
    ValClamp(Window(a, ro, n), ru);
    assert Window(a, ro, n)[..ru] == Window(a, ro, ru);
  }

  /** Lines 3446-3474: one digit d with d * b taken off the partial remainder.  The digit is
      the quotient of the partial remainder by b, except where the trial digit is misjudged. */
  method QuotientDigit(a: MpInt, b: MpInt, t: MpInt, ro: nat, n: nat) returns (d: digit, ru: nat)
    requires b.Valid() && t.Sized() && t.digits.Length >= b.used + 1 && !b.negative && !t.negative
    requires a != b && a != t && b != t
    requires a.digits != b.digits && a.digits != t.digits && b.digits != t.digits
    requires ro + n <= a.digits.Length && Trial(Window(a, ro, n), Run(b.digits, 0, b.used))
    requires forall k :: 0 <= k < b.used + 1 ==> t.digits[k] == 0
    modifies a.digits, t, t.digits
    ensures d >= 1 && 1 <= ru <= n && Canonical(Window(a, ro, ru))
    ensures var r := old(Window(a, ro, n));
            && d == (if Misjudged(r, old(Run(b.digits, 0, b.used))) then 1 else Val(r) / b.Mag())
            && Val(Window(a, ro, ru)) == Val(r) - d * b.Mag()
    ensures forall k :: 0 <= k < a.digits.Length && !(ro <= k < ro + n) ==> a.digits[k] == old(a.digits[k])
    ensures forall k :: ro + ru <= k < ro + n ==> a.digits[k] == 0
    ensures t.Sized() && t.digits == old(t.digits) && !t.negative
    ensures forall k :: 0 <= k < b.used + 1 ==> t.digits[k] == 0
  {
    hide Val, Run, TrialDigit, Misjudged, Canonical;
    var ub, btop := b.used, b.digits[b.used - 1];
    ghost var r, bs := Window(a, ro, n), Run(b.digits, 0, ub);
    TrialBounds(r, bs);
    TrialLength(r, bs);
    var next := if n > 1 then a.digits[ro + n - 2] else 0;
    assert next == Next(r);
    var q := TrialDigit(a.digits[ro + n - 1], next, n, btop);
    d := FittingMultiple(a, b, t, ro, n, q, Val(r) / Val(bs));
    ru := TakeOff(a, t, ro, n);
    forall k | 0 <= k < t.used {
      t.digits[k] := 0;
    }
  }

  /** Lines 3460-3462: t becomes q times b. */
  method SetMultiple(b: MpInt, t: MpInt, q: digit)
    requires b.Valid() && t.Sized() && t.digits.Length >= b.used + 1
    requires b != t && b.digits != t.digits
    requires forall k :: 0 <= k < b.used + 1 ==> t.digits[k] == 0
    modifies t`used, t.digits
    ensures t.Valid() && t.Mag() == q * b.Mag() && t.used <= b.used + 1
    ensures forall k :: t.used <= k < b.used + 1 ==> t.digits[k] == 0
  {
    hide Val, Run, Canonical;
    DbMul(b.digits, q, t.digits, b.used);
    t.used := b.used + 1;
    t.Clamp();
  }

  /** Lines 3460-3467: the largest multiple of b by at most the trial digit that fits. */
  method FittingMultiple(a: MpInt, b: MpInt, t: MpInt, ro: nat, n: nat, trial: digit, ghost exact: nat)
    returns (q: digit)
    requires b.Valid() && t.Sized() && t.digits.Length >= b.used + 1 && !b.negative && !t.negative
    requires a != t && b != t && a.digits != t.digits && b.digits != t.digits
    requires 0 < n && ro + n <= a.digits.Length && Canonical(Window(a, ro, n))
    requires forall k :: 0 <= k < b.used + 1 ==> t.digits[k] == 0
    requires 0 < b.Mag() <= Val(Window(a, ro, n)) && exact == Val(Window(a, ro, n)) / b.Mag() && trial >= 1
    modifies t, t.digits
    ensures q as int == if trial as int <= exact then trial as int else exact
    ensures t.Valid() && !t.negative && t.digits == old(t.digits)
    ensures t.Mag() == q * b.Mag() <= Val(Window(a, ro, n)) && t.used <= n && t.used <= b.used + 1
    ensures forall k :: t.used <= k < b.used + 1 ==> t.digits[k] == 0
  {
    hide Val, Run, Canonical;
    SetMultiple(b, t, trial);
    var lowered := LowerTrial(a, b, t, ro, n, trial, exact);
    q := lowered;
  }

  /** Lines 3469-3470: t is taken off the partial remainder. */
  method TakeOff(a: MpInt, t: MpInt, ro: nat, n: nat) returns (ru: nat)
    requires t.Valid() && a.digits != t.digits && 0 < n && ro + n <= a.digits.Length
    requires t.Mag() <= Val(Window(a, ro, n)) && t.used <= n
    modifies a.digits
    ensures 1 <= ru <= n && Canonical(Window(a, ro, ru))
    ensures Val(Window(a, ro, ru)) == old(Val(Window(a, ro, n))) - t.Mag()
    ensures forall k :: 0 <= k < a.digits.Length && !(ro <= k < ro + n) ==> a.digits[k] == old(a.digits[k])
    ensures forall k :: ro + ru <= k < ro + n ==> a.digits[k] == 0
  {
    hide Val, Run, Canonical;
    USub(a.digits, ro, t.digits, 0, a.digits, ro, n, t.used);
    ru := ClampWindow(a, ro, n);
  }

  /** The loop that lowers the trial digit until its multiple fits under the remainder. */
  method LowerTrial(a: MpInt, b: MpInt, t: MpInt, ro: nat, n: nat, trial: nat, ghost exact: nat) returns (q: nat)
    requires b.Valid() && t.Valid() && !b.negative && !t.negative && b != t && b.digits != t.digits
    requires a != t && a.digits != t.digits
    requires 0 < n && ro + n <= a.digits.Length && Canonical(Window(a, ro, n))
    requires t.used <= b.used + 1 <= t.digits.Length
    requires forall k :: t.used <= k < b.used + 1 ==> t.digits[k] == 0
    requires t.Mag() == trial * b.Mag() && 0 < b.Mag() <= Val(Window(a, ro, n))
    requires exact == Val(Window(a, ro, n)) / b.Mag() && trial >= 1
    modifies t, t.digits
    ensures q == if trial <= exact then trial else exact
    ensures t.Valid() && !t.negative && t.digits == old(t.digits)
    ensures t.Mag() == q * b.Mag() <= Val(Window(a, ro, n)) && t.used <= n && t.used <= b.used + 1
    ensures forall k :: t.used <= k < b.used + 1 ==> t.digits[k] == 0
  {
    hide Val, Run, Canonical;
    q := trial;
    QuotientOver(q, exact, b.Mag(), Val(Window(a, ro, n)));
    var cmp := UCmp(t.digits, 0, t.used, a.digits, ro, n);
    while cmp > 0
      invariant t.Valid() && !t.negative && t.digits == old(t.digits)
      invariant t.used <= b.used + 1
      invariant forall k :: t.used <= k < b.used + 1 ==> t.digits[k] == 0
      invariant t.Mag() == q * b.Mag()
      invariant q <= trial && (q < trial ==> q >= exact)
      invariant cmp > 0 <==> t.Mag() > Val(Window(a, ro, n))
      decreases q
    {
      QuotientOver(q, exact, b.Mag(), Val(Window(a, ro, n)));
      q := q - 1;
      Sub(t, b, t);
      cmp := UCmp(t.digits, 0, t.used, a.digits, ro, n);
    }
    QuotientOver(q, exact, b.Mag(), Val(Window(a, ro, n)));
    if t.used > n {
      CanonicalLonger(Run(t.digits, 0, t.used), Window(a, ro, n));
    }
  }

  /** A multiple of b exceeds r exactly when its factor exceeds the quotient. */
  lemma QuotientOver(q: nat, exact: nat, b: nat, r: nat)
    requires b > 0 && exact == r / b
    ensures q * b > r <==> q > exact
    ensures q >= 1 ==> (q - 1) * b == q * b - b
    ensures q >= 1 ==> q * b >= b
  {
    MulDist(q, 1, b);
    MulDist(exact, 1, b);
    if q > exact {
      MulMono(exact + 1, q, b);
    } else {
      MulMono(q, exact, b);
    }
    if q >= 1 {
      MulMono(1, q, b);
    }
  }

  // ---- The digit loop ----

  /** The value of digits listed from the most significant one down. */
  ghost function Horner(qs: seq<digit>): nat {
    if |qs| == 0 then 0 else RADIX * Horner(qs[..|qs| - 1]) + qs[|qs| - 1]
  }

  lemma HornerPush(qs: seq<digit>, d: digit)
    ensures Horner(qs + [d]) == RADIX * Horner(qs) + d
  {
    assert (qs + [d])[..|qs|] == qs;
  }

  /** The digits of x from ro up make qt times b plus the partial remainder r. */
  ghost predicate Divided(x: seq<digit>, b: seq<digit>, ro: int, qt: nat, r: nat)
    requires -1 <= ro < |x| && |b| > 0 && Val(b) > 0
  {
    && Val(x[if ro < 0 then 0 else ro..]) == qt * Val(b) + r
    && r < RADIX * Val(b)
    && (ro < 0 ==> r < Val(b))
  }

  /** What has been pushed, and what is still due at position ro, where the partial remainder is r,
      is what the positions from ro up take, in number and in worth. */
  ghost predicate Counts(x: seq<digit>, b: seq<digit>, ro: int, skip: nat, qs: seq<digit>, r: nat)
    requires |b| > 0 && Val(b) > 0 && -1 <= ro
  {
    var (v, d, n, m) := (Val(x), Val(b), |b|, |x|);
    if ro < 0 then |qs| == PushedFrom(v, d, n, m, 0) && Horner(qs) == QuotientFrom(v, d, n, m, 0)
    else
      var p := Pushes(r, d, TopAt(d, n), skip >= 1);
      && |qs| + p == PushedFrom(v, d, n, m, ro)
      && Horner(qs) * Pow(p) + PushedDigits(r, d, TopAt(d, n)) == QuotientFrom(v, d, n, m, ro)
  }

  /** The remainder at a position not yet begun is that of the digits from there up. */
  lemma PartialSuffix(x: seq<digit>, b: nat, i: nat, q: nat, r: nat)
    requires i < |x| && b > 0 && Val(x[i..]) == q * (RADIX * b) + r && r < RADIX * b
    ensures PartialAt(Val(x), b, i) == r
  {
    hide Val, Pow;
    SuffixQuotient(x, i);
    DivUnique(Val(x[i..]), RADIX * b, q, r);
  }

  lemma LoopStart(x: seq<digit>, b: seq<digit>)
    requires |x| > 0 && |b| > 0 && Val(b) > 0
    ensures Divided(x, b, |x| - 1, 0, x[|x| - 1]) && Counts(x, b, |x| - 1, 0, [], x[|x| - 1])
  {
    hide Val, Pow, PartialAt, TopAt, Pushes, PushedDigits;
    var n := |x| - 1;
    assert x[n..] == [x[n]];
    ValOne(x[n..]);
    MulMono(1, Val(b), RADIX);
    MulComm(Val(b), RADIX);
    PartialSuffix(x, Val(b), n, 0, x[n]);
    var (v, d) := (Val(x), Val(b));
    assert PushedFrom(v, d, |b|, |x|, n + 1) == 0 && QuotientFrom(v, d, |b|, |x|, n + 1) == 0;
    assert Horner([]) == 0;
  }

  /** A digit pushed where b fits. */
  lemma CountPush(x: seq<digit>, b: seq<digit>, ro: nat, skip: nat, qs: seq<digit>, r: nat, r': nat, d: digit)
    requires |b| > 0 && Val(b) > 0 && 2 * Val(b) <= TopAt(Val(b), |b|)
    requires Counts(x, b, ro, skip, qs, r) && r >= Val(b)
    requires if r >= TopAt(Val(b), |b|) then d == 1 && r' == r - Val(b) else d == r / Val(b) && r' < Val(b)
    ensures Counts(x, b, ro, 0, qs + [d], r')
    ensures PushedFrom(Val(x), Val(b), |b|, |x|, ro) > |qs|
  {
    hide Val, PartialAt, TopAt, PushedFrom, QuotientFrom, Horner, Pow;
    var top, h := TopAt(Val(b), |b|), Horner(qs);
    var p := Pushes(r', Val(b), top, false);
    PushesNext(r, r', Val(b), top);
    HornerPush(qs, d);
    PushedNext(h, r, r', Val(b), top, d, p);
  }

  /** What the pushed digits are worth in the end does not change by pushing one of them. */
  lemma PushedNext(h: nat, r: nat, r': nat, b: nat, top: nat, d: nat, p: nat)
    requires b > 0 && 2 * b <= top && r >= b && p == Pushes(r', b, top, false)
    requires if r >= top then d == 1 && r' == r - b else d == r / b && r' < b
    ensures (RADIX * h + d) * Pow(p) + PushedDigits(r', b, top) == h * Pow(p + 1) + PushedDigits(r, b, top)
  {
    PowUp(p + 1);
    MulDist(RADIX * h, d, Pow(p));
    MulComm(RADIX, h);
    MulAssoc(h, RADIX, Pow(p));
    if r < top {
      DivUnique(r', b, 0, r');
      Units();
    }
  }

  /** Where b does not fit, a zero is due for a position that has got nothing. */
  lemma CountPending(x: seq<digit>, b: seq<digit>, ro: nat, skip: nat, qs: seq<digit>, r: nat)
    requires |b| > 0 && r < Val(b) < TopAt(Val(b), |b|) && Counts(x, b, ro, skip, qs, r)
    ensures var qs' := if skip >= 1 then qs + [0] else qs;
            && |qs'| == PushedFrom(Val(x), Val(b), |b|, |x|, ro)
            && Horner(qs') == QuotientFrom(Val(x), Val(b), |b|, |x|, ro)
  {
    hide Val, TopAt, Horner, PushedFrom, QuotientFrom, Pow;
    HornerPush(qs, 0);
    DivUnique(r, Val(b), 0, r);
    PowUp(1);
    Units();
  }

  /** The remainder takes in the next digit of x. */
  lemma DividedMove(x: seq<digit>, b: seq<digit>, ro: nat, r: nat, qt: nat)
    requires 0 < ro < |x| && |b| > 0 && r < Val(b) && Divided(x, b, ro, qt, r)
    ensures Divided(x, b, ro - 1, RADIX * qt, x[ro - 1] + RADIX * r)
    ensures PartialAt(Val(x), Val(b), ro - 1) == x[ro - 1] + RADIX * r
  {
    hide Val, PartialAt;
    SuffixHead(x, ro - 1);
    MoveMath(Val(x[ro..]), Val(x[ro - 1..]), qt, Val(b), r, x[ro - 1]);
    MulComm(RADIX, qt);
    MulAssoc(qt, RADIX, Val(b));
    PartialSuffix(x, Val(b), ro - 1, qt, x[ro - 1] + RADIX * r);
  }

  /** A position that is done, as the start of the next one. */
  lemma CountNext(x: seq<digit>, b: seq<digit>, ro: nat, skip: nat, qs: seq<digit>)
    requires 0 < ro < |x| && |b| > 0 && Val(b) > 0
    requires |qs| == PushedFrom(Val(x), Val(b), |b|, |x|, ro)
    requires Horner(qs) == QuotientFrom(Val(x), Val(b), |b|, |x|, ro)
    ensures Counts(x, b, ro - 1, skip + 1, qs, PartialAt(Val(x), Val(b), ro - 1))
  {
    hide Val, TopAt, Horner, PartialAt, Pushes, PushedDigits, Pow;
  }

  /** The step to the next digit of x, which pushes a zero if this one has got none. */
  lemma CountMove(x: seq<digit>, b: seq<digit>, ro: nat, skip: nat, qs: seq<digit>, r: nat, qt: nat)
    requires ro < |x| && |b| > 0 && r < Val(b) < TopAt(Val(b), |b|)
    requires Counts(x, b, ro, skip, qs, r) && Divided(x, b, ro, qt, r)
    ensures var qs' := if skip >= 1 then qs + [0] else qs;
            && (if ro == 0 then Divided(x, b, -1, qt, r) && Counts(x, b, -1, skip + 1, qs', r)
                else && Divided(x, b, ro - 1, RADIX * qt, x[ro - 1] + RADIX * r)
                     && Counts(x, b, ro - 1, skip + 1, qs', x[ro - 1] + RADIX * r))
            && |qs'| <= PushedFrom(Val(x), Val(b), |b|, |x|, ro)
  {
    hide Val, PartialAt, TopAt, Horner, Pow, PushedFrom, QuotientFrom;
    CountPending(x, b, ro, skip, qs, r);
    if ro > 0 {
      hide Divided, Counts;
      DividedMove(x, b, ro, r, qt);
      CountNext(x, b, ro, skip, if skip >= 1 then qs + [0] else qs);
    }
  }

  /** The top digit of b one place too high, as the loop finds it. */
  lemma TopDigitAt(b: seq<digit>)
    requires |b| > 0 && b[|b| - 1] >= RADIX / 2 && 0 < Val(b) < Pow(|b|)
    ensures TopAt(Val(b), |b|) == b[|b| - 1] * Pow(|b|) && 2 * Val(b) <= TopAt(Val(b), |b|)
  {
    hide Val, Pow;
    var n := |b| - 1;
    SuffixQuotient(b, n);
    assert b[n..] == [b[n]];
    ValOne(b[n..]);
    MulMono(2, b[n], Pow(|b|));
  }

  lemma MoveMath(v: nat, v': nat, qt: nat, b: nat, r: nat, d: digit)
    requires v == qt * b + r && r < b && v' == d + RADIX * v
    ensures v' == (RADIX * qt) * b + (d + RADIX * r)
    ensures d + RADIX * r < RADIX * b
  {
    MulDist2(RADIX, qt * b, r);
    MulAssoc(RADIX, qt, b);
    MulMono(r + 1, b, RADIX);
    MulDist(r, 1, RADIX);
    MulComm(RADIX, r);
    MulComm(RADIX, b);
  }

  /** One more digit behind the first qpos, unless the buffer is full. */
  method PushDigit(q: MpInt, qpos: nat, d: digit) returns (inside: bool)
    requires qpos <= q.digits.Length
    modifies q.digits
    ensures inside <==> qpos < q.digits.Length
    ensures inside ==> q.digits[..qpos + 1] == old(q.digits[..qpos]) + [d]
  {
    inside := qpos < q.digits.Length;
    if inside {
      q.digits[qpos] := d;
    }
  }

  /** Lines 3436-3442: the remainder takes in the next digit of x. */
  method NextDigit(a: MpInt, ro: nat, n: nat, ghost x: seq<digit>) returns (ru: nat)
    requires Seated(a, x, ro + 1, n) && ro < |x|
    ensures Seated(a, x, ro, ru) && Val(Window(a, ro, ru)) == x[ro] + RADIX * Val(Window(a, ro + 1, n))
  {
    hide Val;
    ExtendWindow(a, x, ro, n, Window(a, ro + 1, n));
    ru := ClampWindow(a, ro, n + 1);
  }

  /** The n digits that a multiple of b may take are zero. */
  ghost predicate Zeroed(t: MpInt, n: nat)
    reads t, t.digits
  {
    t.Sized() && !t.negative && t.digits.Length >= n && forall k :: 0 <= k < n ==> t.digits[k] == 0
  }

  /** A quotient digit, for a partial remainder in its place. */
  method SeatedDigit(a: MpInt, b: MpInt, t: MpInt, ro: nat, n: nat, ghost x: seq<digit>) returns (d: digit, ru: nat)
    requires Seated(a, x, ro, n)
    requires b.Valid() && !b.negative && Zeroed(t, b.used + 1)
    requires a != b && a != t && b != t
    requires a.digits != b.digits && a.digits != t.digits && b.digits != t.digits
    requires Trial(Window(a, ro, n), Run(b.digits, 0, b.used))
    modifies a.digits, t, t.digits
    ensures Seated(a, x, ro, ru) && d >= 1
    ensures var r := old(Window(a, ro, n));
            && d == (if Misjudged(r, old(Run(b.digits, 0, b.used))) then 1 else Val(r) / b.Mag())
            && Val(Window(a, ro, ru)) == Val(r) - d * b.Mag()
    ensures Zeroed(t, b.used + 1) && t.digits == old(t.digits)
  {
    hide Val, Misjudged, Run, Canonical;
    d, ru := QuotientDigit(a, b, t, ro, n);
  }

  lemma SeatedStart(a: MpInt, x: seq<digit>)
    requires a.Valid() && x == Run(a.digits, 0, a.used)
    ensures Seated(a, x, a.used - 1, 1)
  {
  }

  lemma SeatedEnd(a: MpInt, x: seq<digit>, ru: nat)
    requires Seated(a, x, 0, ru)
    ensures Seated(a, x, -1, ru) && ru <= a.digits.Length
  {
  }

  lemma SeatedBounds(a: MpInt, x: seq<digit>, ro: int, ru: nat)
    requires -1 <= ro && Seated(a, x, ro, ru)
    ensures var p := if ro < 0 then 0 else ro;
            1 <= ru && p + ru <= |x| <= a.digits.Length && a.used == |x| && Canonical(Window(a, p, ru))
  {
  }

  /** The four numbers of the loop share nothing. */
  ghost predicate Distinct(a: MpInt, b: MpInt, t: MpInt, q: MpInt)
    reads a, b, t, q
  {
    && a != b && a != t && b != t && q != a && q != b && q != t
    && a.digits != b.digits && a.digits != t.digits && b.digits != t.digits
    && q.digits != a.digits && q.digits != b.digits && q.digits != t.digits
  }

  /** The divisor of the loop: y are its digits, the top bit set. */
  ghost predicate Divisor(b: MpInt, y: seq<digit>)
    reads b, b.digits
  {
    && b.Valid() && !b.negative && y == Run(b.digits, 0, b.used) && y[|y| - 1] >= RADIX / 2
    && 0 < Val(y) < Pow(|y|) && 2 * Val(y) <= TopAt(Val(y), |y|)
    && TopAt(Val(y), |y|) == y[|y| - 1] * Pow(|y|)
  }

  lemma DivisorStart(b: MpInt)
    requires b.Valid() && !b.negative && b.digits[b.used - 1] >= RADIX / 2
    ensures Divisor(b, Run(b.digits, 0, b.used))
  {
    hide Val, Pow, TopAt;
    DivisorFacts(Run(b.digits, 0, b.used));
    TopDigitAt(Run(b.digits, 0, b.used));
  }

  /** Where the loop stands: the remainder in its place, and the count of what is pushed. */
  ghost predicate Standing(a: MpInt, x: seq<digit>, y: seq<digit>, ro: int, ru: nat, skip: nat, qs: seq<digit>,
                           qt: nat)
    reads a, a.digits
  {
    && -1 <= ro < |x| && |y| > 0 && Val(y) > 0 && Seated(a, x, ro, ru)
    && var r := Val(Window(a, if ro < 0 then 0 else ro, ru));
       Divided(x, y, ro, qt, r) && Counts(x, y, ro, skip, qs, r)
  }

  lemma StandingStart(a: MpInt, y: seq<digit>)
    requires a.Valid() && |y| > 0 && Val(y) > 0
    ensures Standing(a, Run(a.digits, 0, a.used), y, a.used - 1, 1, 0, [], 0)
  {
    hide Val, Divided, Counts;
    var x := Run(a.digits, 0, a.used);
    LoopStart(x, y);
    OneDigit(Window(a, a.used - 1, 1));
    SeatedStart(a, x);
  }

  /** Lines 3434-3443: where b does not fit, the remainder takes in the next digit; a zero is
      pushed unless this was the first try since the last digit. */
  method StepDown(a: MpInt, b: MpInt, q: MpInt, ro: nat, n: nat, skip: nat, qpos: nat, ghost x: seq<digit>,
                  ghost y: seq<digit>, ghost qs: seq<digit>, ghost qt: nat)
    returns (ru: nat, qpos': nat, inside: bool, ghost qs': seq<digit>, ghost qt': nat)
    requires Standing(a, x, y, ro, n, skip, qs, qt) && Divisor(b, y)
    requires Val(Window(a, ro, n)) < Val(y) && q.digits != a.digits && q.digits != b.digits
    requires qpos <= q.digits.Length && q.digits[..qpos] == qs
    modifies q.digits
    ensures inside ==> Standing(a, x, y, ro - 1, ru, skip + 1, qs', qt')
    ensures inside ==> qpos' <= q.digits.Length && q.digits[..qpos'] == qs'
    ensures !inside ==> q.digits.Length < Pushed(Val(x), Val(y), |y|, |x|)
  {
    hide Val, Run, Pow, Divided, Counts, PushedFrom, Pushed, TopAt, Seated, Canonical, Horner;
    SeatedBounds(a, x, ro, n);
    PushedGrows(Val(x), Val(y), |y|, |x|, ro);
    CountMove(x, y, ro, skip, qs, Val(Window(a, ro, n)), qt);
    ru, qpos', inside, qs', qt' := n, qpos, true, qs, qt;
    if skip >= 1 {
      inside := PushDigit(q, qpos, 0);
      if !inside {
        return;
      }
      qpos', qs' := qpos + 1, qs + [0];
    }
    if ro > 0 {
      ru := NextDigit(a, ro - 1, n, x);
      qt' := RADIX * qt;
    } else {
      SeatedEnd(a, x, ru);
    }
  }

  /** Lines 3444-3475: where b fits, a digit is pushed and its multiple of b taken off. */
  method StepDigit(a: MpInt, b: MpInt, t: MpInt, q: MpInt, ro: nat, n: nat, skip: nat, qpos: nat,
                   ghost x: seq<digit>, ghost y: seq<digit>, ghost qs: seq<digit>, ghost qt: nat)
    returns (ru: nat, inside: bool, d: digit)
    requires Distinct(a, b, t, q) && Zeroed(t, b.used + 1) && Divisor(b, y)
    requires Standing(a, x, y, ro, n, skip, qs, qt) && Val(Window(a, ro, n)) >= Val(y)
    requires qpos <= q.digits.Length && q.digits[..qpos] == qs
    modifies a.digits, t, t.digits, q.digits
    ensures Zeroed(t, b.used + 1) && t.digits == old(t.digits) && Divisor(b, y)
    ensures Standing(a, x, y, ro, ru, 0, qs + [d], qt + d)
    ensures Val(Window(a, ro, ru)) < old(Val(Window(a, ro, n)))
    ensures inside ==> qpos < q.digits.Length && q.digits[..qpos + 1] == qs + [d]
    ensures !inside ==> q.digits.Length < Pushed(Val(x), Val(y), |y|, |x|)
  {
    hide Val, Run, Pow, Divided, Counts, PushedFrom, Pushed, TopAt, Seated, Canonical, Misjudged, Trial, Zeroed;
    SeatedBounds(a, x, ro, n);
    PushedGrows(Val(x), Val(y), |y|, |x|, ro);
    ghost var r := Window(a, ro, n);
    PushFacts(x, y, ro, qt, r);
    d, ru := SeatedDigit(a, b, t, ro, n, x);
    SeatedBounds(a, x, ro, ru);
    DigitStep(x, y, ro, skip, qs, qt, r, d);
    MulMono(1, d, Val(y));
    inside := PushDigit(q, qpos, d);
  }

  /** Lines 3430-3476: all quotient digits, most significant first, into the digits of q.  The
      run stops where the source would write behind the buffer, which is the case exactly if
      more digits are pushed than it holds. */
  method QuotientDigits(a: MpInt, b: MpInt, t: MpInt, q: MpInt) returns (qpos: nat, ru: nat, inside: bool)
    requires a.Valid() && b.Valid() && !b.negative && Zeroed(t, b.used + 1) && Distinct(a, b, t, q)
    requires b.digits[b.used - 1] >= RADIX / 2
    modifies a.digits, t, t.digits, q.digits
    ensures b.Mag() > 0 && old(b.Mag()) == b.Mag()
    ensures inside <==> Pushed(old(a.Mag()), b.Mag(), b.used, a.used) <= q.digits.Length
    ensures inside ==> qpos == Pushed(old(a.Mag()), b.Mag(), b.used, a.used)
    ensures inside ==> a.Mag() == old(a.Mag()) % b.Mag()
    ensures inside ==> Horner(q.digits[..qpos]) == QuotientFrom(old(a.Mag()), b.Mag(), b.used, a.used, 0)
  {
    hide Val, Run, Pow, Horner, Canonical, Pushed, QuotientFrom, TopAt, Seated, Zeroed, Standing;
    ghost var x, y := Run(a.digits, 0, a.used), Run(b.digits, 0, b.used);
    DivisorStart(b);
    StandingStart(a, y);
    StandingBounds(a, x, y, a.used - 1, 1, 0, [], 0);
    var ro: int, skip: nat := a.used - 1, 0;
    qpos, ru, inside := 0, 1, true;
    ghost var qs: seq<digit>, qt: nat := [], 0;
    while ro >= 0
      invariant inside && Standing(a, x, y, ro, ru, skip, qs, qt) && Divisor(b, y)
      invariant -1 <= ro && (if ro < 0 then 0 else ro) + ru <= a.digits.Length
      invariant Zeroed(t, b.used + 1) && t.digits == old(t.digits)
      invariant qpos <= q.digits.Length && q.digits[..qpos] == qs
      decreases ro, if ro < 0 then 0 else Val(Window(a, ro, ru))
    {
      StandingBounds(a, x, y, ro, ru, skip, qs, qt);
      var cmp := UCmp(b.digits, 0, b.used, a.digits, ro, ru);
      if cmp > 0 {
        ru, qpos, inside, qs, qt := StepDown(a, b, q, ro, ru, skip, qpos, x, y, qs, qt);
        if !inside {
          return;
        }
        ro, skip := ro - 1, skip + 1;
      } else {
        var d: digit;
        ru, inside, d := StepDigit(a, b, t, q, ro, ru, skip, qpos, x, y, qs, qt);
        if !inside {
          return;
        }
        qpos, qs, qt, skip := qpos + 1, qs + [d], qt + d, 0;
      }
      StandingBounds(a, x, y, ro, ru, skip, qs, qt);
    }
    StandingEnd(a, x, y, ru, skip, qs, qt);
  }

  lemma StandingBounds(a: MpInt, x: seq<digit>, y: seq<digit>, ro: int, ru: nat, skip: nat, qs: seq<digit>,
                       qt: nat)
    requires Standing(a, x, y, ro, ru, skip, qs, qt)
    ensures var p := if ro < 0 then 0 else ro;
            -1 <= ro && 1 <= ru && p + ru <= a.digits.Length && a.used == |x| && Canonical(Window(a, p, ru))
  {
    hide Val, Divided, Counts;
    SeatedBounds(a, x, ro, ru);
  }

  lemma StandingEnd(a: MpInt, x: seq<digit>, y: seq<digit>, ru: nat, skip: nat, qs: seq<digit>, qt: nat)
    requires Standing(a, x, y, -1, ru, skip, qs, qt)
    ensures a.Sized() && a.used == |x| && |y| > 0 && Val(y) > 0 && a.Mag() == Val(x) % Val(y)
    ensures |qs| == Pushed(Val(x), Val(y), |y|, |x|)
    ensures Horner(qs) == QuotientFrom(Val(x), Val(y), |y|, |x|, 0)
  {
    hide Val, Seated, Horner, PushedFrom, QuotientFrom;
    SeatedBounds(a, x, -1, ru);
    WholeWindow(a, x, ru);
    assert x[0..] == x;
    DivUnique(Val(x), Val(y), qt, Val(Window(a, 0, ru)));
  }

  lemma WholeWindow(a: MpInt, x: seq<digit>, ru: nat)
    requires Seated(a, x, -1, ru)
    ensures Val(Window(a, 0, ru)) == Val(Run(a.digits, 0, a.used))
  {
    hide Val, Canonical;
    ValClamp(Run(a.digits, 0, a.used), ru);
    assert Run(a.digits, 0, a.used)[..ru] == Window(a, 0, ru);
  }

  /** The window holds the partial remainder; digits below are x's, digits above are zero. */
  ghost predicate Seated(a: MpInt, x: seq<digit>, ro: int, ru: nat)
    requires -1 <= ro
    reads a, a.digits
  {
    var p := if ro < 0 then 0 else ro;
    && 1 <= ru && p + ru <= |x| <= a.digits.Length && a.used == |x|
    && Canonical(Window(a, p, ru))
    && (forall k :: 0 <= k < ro ==> a.digits[k] == x[k])
    && (forall k :: p + ru <= k < |x| ==> a.digits[k] == 0)
  }

  lemma DivisorFacts(b: seq<digit>)
    requires Canonical(b) && b[|b| - 1] >= RADIX / 2
    ensures 0 < Val(b) < Pow(|b|)
  {
    hide Val, Pow;
    ValBound(b);
    CanonicalByValue(b);
    if |b| == 1 {
      ValOne(b);
    }
  }

  lemma ExtendWindow(a: MpInt, x: seq<digit>, ro: nat, ru: nat, r: seq<digit>)
    requires Seated(a, x, ro + 1, ru) && r == Window(a, ro + 1, ru)
    ensures Val(Window(a, ro, ru + 1)) == x[ro] + RADIX * Val(r)
  {
    assert Window(a, ro, ru + 1)[1..] == r;
  }

  /** The partial remainder is one the trial digit was made for. */
  lemma PushFacts(x: seq<digit>, b: seq<digit>, ro: nat, qt: nat, r: seq<digit>)
    requires ro < |x| && Canonical(r) && Canonical(b) && b[|b| - 1] >= RADIX / 2
    requires 0 < Val(b) <= Val(r) && Divided(x, b, ro, qt, Val(r))
    ensures Trial(r, b)
  {
  }

  /** Being misjudged, said of values. */
  lemma MisjudgedValue(r: seq<digit>, b: seq<digit>)
    requires Trial(r, b)
    ensures |r| > 0 && |b| > 0
    ensures Misjudged(r, b) <==> Val(r) >= b[|b| - 1] * Pow(|b|)
  {
    hide Val, Pow, At;
    TrialLength(r, b);
    var top, btop, n := r[|r| - 1], b[|b| - 1], |b|;
    if |r| == n {
      ValBound(r);
      MulMono(1, btop, Pow(n));
    } else {
      ValTop(r);
      AtDef(top, n);
      AtDef(top as int + 1, n);
      if top >= btop {
        MulMono(btop, top, Pow(n));
      } else {
        MulMono(top as int + 1, btop, Pow(n));
      }
    }
  }

  lemma QuotientFits(r: nat, b: nat)
    requires 0 < b <= r
    ensures r / b >= 1 && 0 <= r - (r / b) * b < b
  {
    QuotientLeast(1, r, b);
  }

  /** What one quotient digit does to count and remainder. */
  lemma DigitStep(x: seq<digit>, b: seq<digit>, ro: nat, skip: nat, qs: seq<digit>, qt: nat, r: seq<digit>, d: digit)
    requires ro < |x| && Trial(r, b) && |r| > 0 && |b| > 0 && Val(b) > 0
    requires TopAt(Val(b), |b|) == b[|b| - 1] * Pow(|b|) && 2 * Val(b) <= TopAt(Val(b), |b|)
    requires Divided(x, b, ro, qt, Val(r)) && Counts(x, b, ro, skip, qs, Val(r))
    requires d == if Misjudged(r, b) then 1 else Val(r) / Val(b)
    ensures 1 <= d && d * Val(b) <= Val(r)
    ensures Divided(x, b, ro, qt + d, Val(r) - d * Val(b))
    ensures Counts(x, b, ro, 0, qs + [d], Val(r) - d * Val(b))
    ensures |qs| < PushedFrom(Val(x), Val(b), |b|, |x|, ro)
  {
    hide Val, Pow, Misjudged, Canonical, Counts, TopAt, PushedFrom;
    MisjudgedValue(r, b);
    TrialBounds(r, b);
    QuotientFits(Val(r), Val(b));
    QuotientOver(d, Val(r) / Val(b), Val(b), Val(r));
    MulDist(qt, d, Val(b));
    CountPush(x, b, ro, skip, qs, Val(r), Val(r) - d * Val(b), d);
  }

  // ---- Normalisation and the whole division ----

  /** The shift that brings the top bit of d to the top of the digit. */
  function NormShift(d: digit): nat
    requires d > 0
    decreases RADIX - d
  {
    if d < RADIX / 2 then 1 + NormShift(2 * (d as int)) else 0
  }

  lemma {:induction false} NormShiftTop(d: digit)
    requires d > 0
    ensures RADIX / 2 <= d * Pow2(NormShift(d)) < RADIX
    decreases RADIX - d
  {
    if d < RADIX / 2 {
      var e: digit := 2 * (d as int);
      NormShiftTop(e);
      MulAssoc(d, 2, Pow2(NormShift(e)));
      MulComm(d, 2);
    }
  }

  /** The shift stays within a digit, and so does the whole interval that d stands for. */
  lemma NormShiftFits(d: digit)
    requires d > 0
    ensures NormShift(d) < DIGIT_BIT
    ensures (d as int + 1) * Pow2(NormShift(d)) <= RADIX
  {
    hide NormShift, Pow2;
    var k := NormShift(d);
    NormShiftTop(d);
    BitInDigit(d, k);
    Pow2Cut(k);
    var p, q := Pow2(k), Pow2(DIGIT_BIT - k);
    if d >= q {
      MulMono(q, d, p);
      MulComm(p, q);
    }
    MulMono(d as int + 1, q, p);
    MulComm(p, q);
  }

  /** The loop of s_norm that counts the leading zero bits of the divisor's top digit. */
  method TopShift(top: digit) returns (k: nat)
    requires top > 0
    ensures k == NormShift(top)
  {
    hide NormShift;
    var d: digit := top;
    k := 0;
    while d < RADIX / 2
      invariant 0 < d && k + NormShift(d) == NormShift(top)
      decreases RADIX - d
    {
      NormShiftStep(d);
      d := 2 * (d as int);
      k := k + 1;
    }
    NormShiftDone(d);
  }

  /** s_norm (imath.c:3197). */
  method Norm(a: MpInt, b: MpInt) returns (k: nat)
    requires a.Valid() && b.Valid() && Apart(a, b) && b.Mag() > 0
    modifies a, a.digits, b, b.digits
    ensures a.Valid() && b.Valid() && Apart(a, b)
    ensures (a.digits == old(a.digits) || fresh(a.digits)) && (b.digits == old(b.digits) || fresh(b.digits))
    ensures a.negative == old(a.negative) && b.negative == old(b.negative)
    ensures old(b.digits[b.used - 1]) > 0 && k == NormShift(old(b.digits[b.used - 1])) < DIGIT_BIT
    ensures a.Mag() == old(a.Mag()) * Pow2(k) && b.Mag() == old(b.Mag()) * Pow2(k)
    ensures b.used == old(b.used) && b.digits[b.used - 1] >= RADIX / 2
  {
    hide Val, Run, Pow2, NormShift, Canonical;
    ghost var bs := Run(b.digits, 0, b.used);
    TopPositive(bs);
    k := TopShift(b.digits[b.used - 1]);
    NormShiftFits(b.digits[b.used - 1]);
    Units();
    if k != 0 {
      QMul(a, k);
      QMul(b, k);
    }
    NormTop(bs, Run(b.digits, 0, b.used), k);
  }

  lemma NormShiftStep(d: digit)
    requires 0 < d < RADIX / 2
    ensures NormShift(d) == 1 + NormShift(2 * (d as int))
  {
  }

  lemma NormShiftDone(d: digit)
    requires d >= RADIX / 2
    ensures NormShift(d) == 0
  {
  }

  lemma TopPositive(s: seq<digit>)
    requires Canonical(s) && Val(s) > 0
    ensures s[|s| - 1] > 0
  {
    hide Val;
    CanonicalZero(s);
  }

  /** The shifted divisor has as many digits as before, the top one at least RADIX / 2. */
  lemma NormTop(b: seq<digit>, b': seq<digit>, k: nat)
    requires Canonical(b) && Canonical(b') && b[|b| - 1] > 0
    requires k == NormShift(b[|b| - 1]) && Val(b') == Val(b) * Pow2(k)
    ensures |b'| == |b| && b'[|b'| - 1] >= RADIX / 2
  {
    hide Val, Pow, At, NormShift;
    var n, d, p := |b| - 1, b[|b| - 1], Pow2(k);
    NormShiftTop(d);
    NormShiftFits(d);
    ValTop(b);
    MulMono(At(d, n), Val(b), p);
    MulMono(Val(b) + 1, At(d as int + 1, n), p);
    MulDist(Val(b), 1, p);
    ScaleUp(d, p, n);
    ScaleUp(d as int + 1, p, n);
    AtMono(RADIX / 2, d * p, n);
    AtMono((d as int + 1) * p, RADIX, n);
    DigitCount(b', n);
  }

  lemma ScaleUp(d: int, p: int, n: nat)
    ensures At(d, n) * p == At(d * p, n)
  {
    hide At;
    MulComm(At(d, n), p);
    AtScale(p, d, n);
    MulComm(p, d);
  }

  lemma DigitCount(s: seq<digit>, n: nat)
    requires Canonical(s) && At(RADIX / 2, n) <= Val(s) < At(RADIX, n)
    ensures |s| == n + 1 && s[n] >= RADIX / 2
  {
    hide Val, Pow, At;
    AtDef(RADIX, n);
    AtDef(1, n);
    AtMono(1, RADIX / 2, n);
    PowStep(n);
    CanonicalByValue(s);
    ValBound(s);
    if |s| <= n {
      PowMono(|s|, n);
    } else if |s| > n + 1 {
      PowMono(n + 1, |s| - 1);
    } else {
      ValTop(s);
      if s[n] < RADIX / 2 {
        AtMono(s[n] as int + 1, RADIX / 2, n);
      }
    }
  }

  lemma SuffixQuotient(s: seq<digit>, i: nat)
    requires i <= |s|
    ensures Val(s[i..]) == Val(s) / Pow(i)
  {
    hide Val, Pow;
    ValSplit(s, i);
    ValBound(s[..i]);
    MulComm(Pow(i), Val(s[i..]));
    DivUnique(Val(s), Pow(i), Val(s[i..]), Val(s[..i]));
  }

  /** REV (imath.c:127-128) on the first n digits. */
  method Reverse(d: array<digit>, n: nat)
    requires n <= d.Length
    modifies d
    ensures forall k :: 0 <= k < n ==> d[k] == old(d[n - 1 - k])
    ensures forall k :: n <= k < d.Length ==> d[k] == old(d[k])
  {
    var u, v := 0, n - 1;
    while u < v
      invariant 0 <= u <= v + 1 && u + v == n - 1
      invariant forall k :: 0 <= k < u ==> d[k] == old(d[n - 1 - k])
      invariant forall k :: v < k < n ==> d[k] == old(d[n - 1 - k])
      invariant forall k :: u <= k <= v ==> d[k] == old(d[k])
      invariant forall k :: n <= k < d.Length ==> d[k] == old(d[k])
    {
      d[u], d[v] := d[v], d[u];
      u, v := u + 1, v - 1;
    }
  }

  /** Lines 3478-3481: the digits pushed, most significant first, become the number q. */
  method Collect(q: MpInt, qpos: nat)
    requires 0 < qpos <= q.digits.Length
    modifies q`used, q.digits
    ensures q.Valid() && q.Mag() == Horner(old(q.digits[..qpos]))
  {
    hide Val, Run, Horner;
    ghost var qs := q.digits[..qpos];
    q.used := qpos;
    Reverse(q.digits, qpos);
    HornerReversed(qs, Run(q.digits, 0, qpos));
    q.Clamp();
  }

  lemma {:induction false} HornerReversed(qs: seq<digit>, s: seq<digit>)
    requires |s| == |qs| && forall k :: 0 <= k < |s| ==> s[k] == qs[|qs| - 1 - k]
    ensures Val(s) == Horner(qs)
  {
    if |qs| > 0 {
      HornerReversed(qs[..|qs| - 1], s[1..]);
    }
  }

  /** The middle part of s_udiv: a normalised division that leaves the remainder in a, if the run
      stays inside the buffer of the quotient. */
  method LongDivision(a: MpInt, b: MpInt) returns (q: MpInt, inside: bool)
    requires a.Valid() && b.Valid() && Apart(a, b) && 0 < b.Mag() <= a.Mag() && !b.negative
    requires b.digits[b.used - 1] >= RADIX / 2
    modifies a`used, a.digits
    ensures b.Mag() > 0 && b.Mag() == old(b.Mag())
    ensures inside <==> Within(old(a.Mag()), b.Mag(), b.used)
    ensures inside ==> a.Valid() && fresh(q) && fresh(q.digits) && q.Valid() && !q.negative
    ensures inside ==> a.Mag() == old(a.Mag()) % b.Mag() && q.Mag() == Quotient(old(a.Mag()), b.Mag(), b.used)
    ensures 2 * b.Mag() <= TopAt(b.Mag(), b.used)
  {
    hide Val, Run, Canonical, Horner, Pushed, QuotientFrom, Reserved, Length, TopAt, Zeroed;
    ghost var x, y := Run(a.digits, 0, a.used), Run(b.digits, 0, b.used);
    NotShorter(x, y);
    LengthOf(x);
    q := new MpInt(a.used);
    var t := new MpInt(a.used + 1);
    forall i | 0 <= i < t.digits.Length {
      t.digits[i] := 0;
    }
    ZeroedAll(t, b.used + 1);
    DivisorStart(b);
    var qpos, ru;
    qpos, ru, inside := QuotientDigits(a, b, t, q);
    if !inside {
      return;
    }
    QuotientExact(Val(x), Val(y), |y|);
    PushedSome(q.digits[..qpos], Val(x), Val(y));
    Collect(q, qpos);
    a.Clamp();
  }

  /** What normalising multiplies both numbers by. */
  ghost function Scale(b: nat): (p: nat)
    requires b > 0
    ensures p > 0 && b * p > 0
  {
    TopOfPositive(b);
    var p := Pow2(NormShift(TopOf(b)));
    MulMono(1, b, p);
    p
  }

  lemma {:induction false} TopOfPositive(b: nat)
    requires b > 0
    ensures TopOf(b) > 0 && Length(b) > 0
  {
    if b >= RADIX {
      TopOfPositive(b / RADIX);
    }
  }

  /** Normalising sets the top bit and keeps the length. */
  lemma ScaledBounds(b: nat)
    requires b > 0
    ensures Length(b) > 0 && Pow(Length(b)) <= 2 * (b * Scale(b)) && b * Scale(b) < Pow(Length(b))
    ensures Scale(b) < RADIX
  {
    hide Pow, Pow2, NormShift, Length, TopOf;
    TopOfPositive(b);
    TopBelow(b);
    var d := TopOf(b);
    NormShiftTop(d);
    NormShiftFits(d);
    PowStep(Length(b) - 1);
    ScaledMath(d, Pow(Length(b) - 1), b, Scale(b));
  }

  lemma ScaledMath(d: int, p: nat, b: nat, s: nat)
    requires d > 0 && s > 0 && d * p <= b < (d + 1) * p
    requires RADIX / 2 <= d * s && (d + 1) * s <= RADIX
    ensures RADIX * p <= 2 * (b * s) && b * s < RADIX * p && s < RADIX
  {
    ScaledLow(d, p, b, s);
    ScaledHigh(d, p, b, s);
    if s >= RADIX {
      MulMono(2, d + 1, s);
    }
  }

  lemma ScaledLow(d: int, p: nat, b: nat, s: nat)
    requires s > 0 && d * p <= b && RADIX / 2 <= d * s
    ensures RADIX * p <= 2 * (b * s)
  {
    var x, y, z := d * p, d * s, b * s;
    MulMono(x, b, s);
    Regroup(d, p, s);
    MulMono(RADIX / 2, y, p);
    assert RADIX / 2 * p <= z;
  }

  lemma ScaledHigh(d: int, p: nat, b: nat, s: nat)
    requires s > 0 && b < (d + 1) * p && (d + 1) * s <= RADIX
    ensures b * s < RADIX * p
  {
    var x, y, z := (d + 1) * p, (d + 1) * s, b * s;
    MulMono(b + 1, x, s);
    MulDist(b, 1, s);
    Regroup(d + 1, p, s);
    MulMono(y, RADIX, p);
  }

  lemma Regroup(d: int, p: int, s: int)
    ensures (d * p) * s == (d * s) * p
  {
    MulAssoc(d, p, s);
    MulComm(p, s);
    MulAssoc(d, s, p);
  }

  /** Dividends of at most 21 digits, and all that are not much longer than the divisor, stay
      inside the buffer of the quotient. */
  lemma ShortInside(a: nat, b: nat)
    requires b > 0
    ensures var (m, n) := (Length(a), Length(b));
            m <= 21 || m < n || 3 * (m + 1) <= 2 * n + Reserved(m) ==> QuotientInside(a, b)
  {
    hide Pow, Scale, Length, Within;
    ScaledBounds(b);
    ScaledLength(a, Scale(b));
    SmallWithin(a * Scale(b), b * Scale(b), Length(b));
  }

  /** 2^63 + 2^32 - 1 and dividends of every length from two digits on: from 34 digits on the run
      leaves the buffer. */
  lemma BufferLeft(k: nat)
    ensures Length(BadDividend(k)) == k + 2
    ensures QuotientInside(BadDividend(k), BAD_DIVISOR) <==> k < 32
  {
    hide BadDividend, Within;
    var h := RADIX / 2;
    BufferTooShort(k);
    DivUnique(BAD_DIVISOR, RADIX, h, RADIX - 1);
    assert TopOf(h) == h && Length(h) == 1;
    assert TopOf(BAD_DIVISOR) == h && Length(BAD_DIVISOR) == 2;
    assert Scale(BAD_DIVISOR) == 1 by {
      Units();
    }
  }

  /** The inputs for which s_udiv finds the quotient. */
  ghost predicate QuotientFound(a: nat, b: nat)
    requires b > 0
  {
    TopOfPositive(b);
    DivisionExact(a * Scale(b), b * Scale(b), Length(b))
  }

  /** The inputs for which s_udiv stays inside the buffer of the quotient. */
  ghost predicate QuotientInside(a: nat, b: nat)
    requires b > 0
  {
    TopOfPositive(b);
    Within(a * Scale(b), b * Scale(b), Length(b))
  }

  /** What s_udiv delivers as the quotient. */
  ghost function Delivered(a: nat, b: nat): nat
    requires b > 0
  {
    TopOfPositive(b);
    Quotient(a * Scale(b), b * Scale(b), Length(b))
  }

  /** It is never too small, and it is the quotient for exactly the inputs of QuotientFound. */
  lemma DeliveredExact(a: nat, b: nat)
    requires b > 0
    ensures Delivered(a, b) >= a / b
    ensures Delivered(a, b) == a / b <==> QuotientFound(a, b)
  {
    hide Quotient, DivisionExact, Scale, Length, Pow, TopAt;
    TopOfPositive(b);
    ScaledDivision(a, b, Scale(b));
    ScaledBounds(b);
    TopBounds(b * Scale(b), Length(b));
    QuotientExact(a * Scale(b), b * Scale(b), Length(b));
  }

  lemma Normalised(a: nat, b: nat)
    requires b > 0
    ensures Length(b) > 0 && TopOf(b) > 0 && Scale(b) == Pow2(NormShift(TopOf(b)))
    ensures QuotientInside(a, b) <==> Within(a * Scale(b), b * Scale(b), Length(b))
    ensures Delivered(a, b) == Quotient(a * Scale(b), b * Scale(b), Length(b))
  {
    hide Length, TopOf, NormShift, Pow2, Quotient, Within;
    TopOfPositive(b);
  }

  /** s_udiv (imath.c:3393): the run stays inside the buffer of the quotient exactly for the inputs
      that satisfy QuotientInside.  Then b becomes the remainder and a the quotient delivered,
      which is the right one exactly for those that satisfy QuotientFound, and otherwise too
      large. */
  method UDiv(a: MpInt, b: MpInt) returns (inside: bool)
    requires a.Valid() && b.Valid() && Apart(a, b) && 0 < b.Mag() <= a.Mag()
    modifies a, a.digits, b, b.digits
    ensures (a.digits == old(a.digits) || fresh(a.digits)) && (b.digits == old(b.digits) || fresh(b.digits))
    ensures inside <==> QuotientInside(old(a.Mag()), old(b.Mag()))
    ensures inside ==> a.Valid() && b.Valid() && Apart(a, b) && !a.negative && !b.negative
    ensures inside ==> b.Mag() == old(a.Mag()) % old(b.Mag()) && a.Mag() == Delivered(old(a.Mag()), old(b.Mag()))
    ensures inside ==> a.Mag() >= old(a.Mag()) / old(b.Mag())
    ensures inside ==>
              (a.Mag() == old(a.Mag()) / old(b.Mag()) <==> QuotientFound(old(a.Mag()), old(b.Mag())))
  {
    hide Val, Run, Pow2, NormShift, Canonical, Within, Shr, Length, TopOf, QuotientFound, Quotient, QuotientInside,
         Delivered, Scale;
    ghost var va, vb := a.Mag(), b.Mag();
    LengthOf(Run(b.digits, 0, b.used));
    DeliveredExact(va, vb);
    Normalised(va, vb);
    a.negative, b.negative := false, false;
    var k := Norm(a, b);
    ScaledDivision(va, vb, Pow2(k));
    MulMono(vb, va, Pow2(k));
    var q;
    q, inside := LongDivision(a, b);
    if !inside {
      return;
    }
    ShrDef(va % vb, k);
    if k != 0 {
      QDiv(a, k);
    }
    Copy(a, b);
    Copy(q, a);
  }

  /** A run without a misjudged position always stays inside. */
  lemma ExactWithin(a: nat, b: nat, n: nat)
    requires b > 0 && n > 0 && DivisionExact(a, b, n)
    ensures Within(a, b, n)
  {
    hide PartialAt, TopAt, PushedFrom, Length;
    var m := Length(a);
    forall j: nat | j < m
      ensures PartialAt(a, b, j) < TopAt(b, n)
    {
      assert ExactAt(a, b, n, j);
    }
    ExactPushes(a, b, n, m, 0);
  }

  lemma FoundInside(a: nat, b: nat)
    requires b > 0 && QuotientFound(a, b)
    ensures QuotientInside(a, b)
  {
    hide DivisionExact, Within, Scale, Length;
    TopOfPositive(b);
    ExactWithin(a * Scale(b), b * Scale(b), Length(b));
  }

  lemma ZeroedAll(t: MpInt, n: nat)
    requires t.Sized() && !t.negative && n <= t.digits.Length
    requires forall k :: 0 <= k < t.digits.Length ==> t.digits[k] == 0
    ensures Zeroed(t, n)
  {
  }

  lemma NotShorter(x: seq<digit>, y: seq<digit>)
    requires Canonical(x) && Canonical(y) && Val(y) <= Val(x)
    ensures |y| <= |x|
  {
    hide Val;
    if |y| > |x| {
      CanonicalLonger(y, x);
    }
  }

  lemma PushedSome(qs: seq<digit>, a: nat, b: nat)
    requires 0 < b <= a && Horner(qs) >= a / b
    ensures |qs| > 0
  {
    QuotientLeast(1, a, b);
  }

  lemma ShrDef(r: nat, k: nat)
    ensures Shr(r * Pow2(k), k) == r
    ensures k == 0 ==> r * Pow2(k) == r
  {
    DivUnique(r * Pow2(k), Pow2(k), r, 0);
  }

  // ---- When the quotient is right, and when not ----

  /** 2^95 / (2^63 + 1): both normalised, and the quotient comes out wrong. */
  lemma QuotientWrong()
    ensures Val([0, 0, RADIX / 2]) == (RADIX / 2) * (RADIX * RADIX)
    ensures Val([1, RADIX / 2]) == (RADIX / 2) * RADIX + 1
    ensures !DivisionExact((RADIX / 2) * (RADIX * RADIX), (RADIX / 2) * RADIX + 1, 2)
  {
    var h: digit := RADIX / 2;
    assert [0, 0, h][1..] == [0, h] && [0, h][1..] == [h] && [1, h][1..] == [h];
    ValOne([h]);
    var a, b := h * (RADIX * RADIX), h * RADIX + 1;
    assert Pow(1) == RADIX * Pow(0) && Pow(2) == RADIX * Pow(1);
    DivUnique(a, Pow(0), a, 0);
    DivUnique(a, RADIX * b, 0, a);
    DivUnique(b, Pow(1), h, 1);
    assert !ExactAt(a, b, 2, 0);
  }

  /** Divisors that are one digit long, or whose lower digits are all zero, divide exactly. */
  lemma RoundDivisorExact(a: nat, b: nat, n: nat)
    requires n > 0 && b > 0 && b % Pow(n - 1) == 0
    ensures DivisionExact(a, b, n)
  {
    forall i: nat
      ensures ExactAt(a, b, n, i)
    {
      var top, p := b / Pow(n - 1), Pow(n - 1);
      assert b == top * p;
      assert (b / Pow(n - 1)) * Pow(n) == RADIX * b by {
        PowStep(n - 1);
        MulComm(RADIX, p);
        MulAssoc(top, p, RADIX);
        MulComm(b, RADIX);
      }
    }
  }
}
