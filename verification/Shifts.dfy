/** Multiplication, division and remainder by powers of two (imath.c:2913-3133).

    Digits are shifted by arithmetic: x << k is x * 2^k reduced to a digit, x >> k is
    x / 2^k, and joining two disjoint bit fields by | is their sum.
 */
module Shifts {
  import opened Digits
  import opened DigitLoops
  import opened MpInts

  const DIGIT_BIT: nat := 32

  function Pow2(k: nat): (p: nat)
    ensures p > 0
  {
    if k == 0 then 1 else 2 * Pow2(k - 1)
  }

  lemma {:induction false} Pow2Add(m: nat, n: nat)
    ensures Pow2(m + n) == Pow2(m) * Pow2(n)
  {
    if m != 0 {
      Pow2Add(m - 1, n);
      MulAssoc(2, Pow2(m - 1), Pow2(n));
    }
  }

  lemma Pow2Radix()
    ensures Pow2(DIGIT_BIT) == RADIX
  {
    assert Pow2(4) == 16 by {
      assert Pow2(2) == 4;
    }
    Pow2Add(4, 4);
    Pow2Add(8, 8);
    Pow2Add(16, 16);
  }

  lemma {:induction false} Pow2Digits(n: nat)
    ensures Pow2(DIGIT_BIT * n) == Pow(n)
  {
    if n > 0 {
      Pow2Digits(n - 1);
      Pow2Radix();
      assert DIGIT_BIT * n == DIGIT_BIT + DIGIT_BIT * (n - 1);
      Pow2Add(DIGIT_BIT, DIGIT_BIT * (n - 1));
    }
  }

  /** The weight of bit p2 is that of bit p2 % 32 in digit p2 / 32. */
  lemma Pow2Parts(p2: nat)
    ensures Pow2(p2) == Pow(p2 / DIGIT_BIT) * Pow2(p2 % DIGIT_BIT)
  {
    Pow2Digits(p2 / DIGIT_BIT);
    Pow2Add(DIGIT_BIT * (p2 / DIGIT_BIT), p2 % DIGIT_BIT);
  }

  /** A digit cut at bit k: 2^k times 2^(32 - k) is RADIX. */
  lemma Pow2Cut(k: nat)
    requires k <= DIGIT_BIT
    ensures Pow2(k) * Pow2(DIGIT_BIT - k) == RADIX
  {
    Pow2Add(k, DIGIT_BIT - k);
    Pow2Radix();
  }

  // ---- Division facts ----

  ghost predicate PowerOfTwo(n: nat) {
    exists j: nat :: n == Pow2(j)
  }

  lemma {:induction false} OddPowerOfTwo(ou: nat, k: nat, j: nat)
    requires ou % 2 == 1 && ou * Pow2(k) == Pow2(j)
    ensures ou == 1
    decreases k
  {
    Pow2Even(j);
    Pow2Even(k);
    if k > 0 {
      MulAssoc(ou, 2, Pow2(k - 1));
      MulComm(ou, 2);
      MulAssoc(2, ou, Pow2(k - 1));
      if j > 0 {
        OddPowerOfTwo(ou, k - 1, j - 1);
      }
    }
  }

  /** The powers with exponent 0, and the first power of two. */
  lemma Units()
    ensures Pow(0) == 1 && Pow2(0) == 1 && Pow2(1) == 2
  {
  }

  lemma Pow2Even(k: nat)
    ensures k > 0 ==> Pow2(k) == 2 * Pow2(k - 1)
  {
  }

  lemma DivUnique(a: int, b: nat, q: int, r: int)
    requires b > 0 && a == q * b + r && 0 <= r < b
    ensures q == a / b && r == a % b
  {
    var q', r' := a / b, a % b;
    assert a == q' * b + r';
    if q < q' {
      MulMono(q + 1, q', b);
      MulDist(q, 1, b);
    } else if q' < q {
      MulMono(q' + 1, q, b);
      MulDist(q', 1, b);
    }
  }

  lemma ScaledDivision(a: nat, b: nat, p: nat)
    requires b > 0 && p > 0
    ensures b * p > 0 && (a * p) / (b * p) == a / b && (a * p) % (b * p) == (a % b) * p
    ensures ((a % b) * p) / p == a % b
  {
    var q, r := a / b, a % b;
    MulMono(1, p, b);
    assert a * p == q * (b * p) + r * p by {
      assert a == q * b + r;
      MulDist(q * b, r, p);
      MulAssoc(q, b, p);
    }
    MulMono(r + 1, b, p);
    MulDist(r, 1, p);
    MulMono(0, r, p);
    DivUnique(a * p, b * p, q, r * p);
    DivUnique(r * p, p, r, 0);
  }

  lemma DivDiv(a: nat, b: nat, c: nat)
    requires b > 0 && c > 0
    ensures b * c > 0 && (a / b) / c == a / (b * c)
  {
    var q, r := a / b, a % b;
    var q', r' := q / c, q % c;
    MulMono(1, b, c);
    assert a == q' * (b * c) + (r' * b + r) by {
      assert q == q' * c + r';
      assert a == q * b + r;
      MulDist(q' * c, r', b);
      MulAssoc(q', c, b);
      MulComm(c, b);
    }
    MulMono(r' + 1, c, b);
    MulDist(r', 1, b);
    MulMono(0, r', b);
    MulComm(b, c);
    DivUnique(a, b * c, q', r' * b + r);
  }

  /** v shifted right by k bits. */
  function Shr(v: nat, k: nat): nat {
    DivNat(v, Pow2(k));
    v / Pow2(k)
  }

  lemma DivNat(v: nat, p: nat)
    requires p > 0
    ensures 0 <= v / p <= v
  {
    var q := v / p;
    if q < 0 {
      MulMono(q, -1, p);
    } else {
      MulMono(1, p, q);
    }
  }

  lemma ShrShr(v: nat, j: nat, k: nat)
    ensures Shr(Shr(v, j), k) == Shr(v, j + k)
    ensures Shr(v, 0) == v
  {
    Pow2Add(j, k);
    DivDiv(v, Pow2(j), Pow2(k));
  }

  // ---- s_qdiv ----

  /** Moving digits down by ndig places drops the remainder modulo Pow(ndig). */
  method DivDigits(z: MpInt, ndig: nat)
    requires z.Valid() && ndig < z.used
    modifies z`used, z.digits
    ensures z.Valid() && z.Mag() == Shr(old(z.Mag()), DIGIT_BIT * ndig)
  {
    hide Val, Run, Canonical, Pow, Shr;
    var uz := z.used;
    ghost var s := Run(z.digits, 0, uz);
    var to, from := 0, ndig;
    while from < uz
      invariant ndig <= from <= uz && to == from - ndig
      invariant forall k :: 0 <= k < to ==> z.digits[k] == s[ndig + k]
      invariant forall k :: from <= k < uz ==> z.digits[k] == s[k]
    {
      z.digits[to] := z.digits[from];
      to, from := to + 1, from + 1;
    }
    z.used := uz - ndig;
    assert Run(z.digits, 0, z.used) == s[ndig..];
    DropDigits(s, ndig);
  }

  lemma DropDigits(s: seq<digit>, n: nat)
    requires Canonical(s) && n < |s|
    ensures Canonical(s[n..]) && Val(s[n..]) == Shr(Val(s), DIGIT_BIT * n)
  {
    Pow2Digits(n);
    ValSplit(s, n);
    ValBound(s[..n]);
    MulComm(Pow(n), Val(s[n..]));
    DivUnique(Val(s), Pow(n), Val(s[n..]), Val(s[..n]));
  }

  /** The digit that s_qdiv stores: o shifted down, the low bits of the digit d above it on top. */
  function DownDigit(o: digit, d: digit, k: nat): digit
    requires k < DIGIT_BIT
  {
    Pow2Cut(k);
    ShiftDownFits(o, d, Pow2(k), Pow2(DIGIT_BIT - k));
    o / Pow2(k) + (d % Pow2(k)) * Pow2(DIGIT_BIT - k)
  }

  /** The bit loop of s_qdiv, from the top digit down. */
  method DivBits(z: MpInt, nbits: nat)
    requires z.Valid() && nbits < DIGIT_BIT
    modifies z`used, z.digits
    ensures z.Valid() && z.Mag() == Shr(old(z.Mag()), nbits)
  {
    hide Val, Run, Canonical, Shr, DownDigit;
    var uz := z.used;
    ghost var s := Run(z.digits, 0, uz);
    NothingShifted(nbits);
    var d: digit := 0;
    while uz > 0
      invariant 0 <= uz <= z.used == |s|
      invariant d == Head(s[uz..])
      invariant Val(Run(z.digits, uz, |s| - uz)) == Shr(Val(s[uz..]), nbits)
      invariant forall k :: 0 <= k < uz ==> z.digits[k] == s[k]
    {
      var save := z.digits[uz - 1];
      ghost var t := Run(z.digits, uz, |s| - uz);
      z.digits[uz - 1] := DownDigit(save, d, nbits);
      ShiftDown(t, Run(z.digits, uz - 1, |s| - uz + 1), s, uz - 1, nbits);
      d := save;
      uz := uz - 1;
    }
    assert s[0..] == s;
    z.Clamp();
  }

  lemma NothingShifted(k: nat)
    ensures Val([]) == Shr(Val([]), k)
  {
    DivUnique(0, Pow2(k), 0, 0);
  }

  function Head(s: seq<digit>): digit {
    if |s| == 0 then 0 else s[0]
  }

  lemma ShiftDownFits(o: digit, d: digit, p: nat, q: nat)
    requires p > 0 && q > 0 && p * q == RADIX
    ensures 0 <= o / p + (d % p) * q < RADIX
  {
    if o / p >= q {
      MulMono(q, o / p, p);
    }
    MulMono(0, d % p, q);
    MulMono(d % p + 1, p, q);
    MulDist(d % p, 1, q);
  }

  lemma ShiftDown(t: seq<digit>, t': seq<digit>, s: seq<digit>, i: nat, k: nat)
    requires k < DIGIT_BIT && i < |s| && |t'| == |t| + 1 && t'[1..] == t
    requires t'[0] == DownDigit(s[i], Head(s[i + 1..]), k)
    requires Val(t) == Shr(Val(s[i + 1..]), k)
    ensures Val(t') == Shr(Val(s[i..]), k)
  {
    hide Val, Pow2;
    var p, q := Pow2(k), Pow2(DIGIT_BIT - k);
    Pow2Cut(k);
    SuffixHead(s, i);
    HeadMod(s[i + 1..], p, q);
    ValHead(t');
    ShiftDownMath(s[i], Val(s[i + 1..]), t'[0], Val(s[i..]), Val(t), Val(t'), Head(s[i + 1..]) % p, p, q);
  }

  lemma SuffixHead(s: seq<digit>, i: nat)
    requires i < |s|
    ensures Val(s[i..]) == s[i] + RADIX * Val(s[i + 1..])
  {
    assert s[i..][1..] == s[i + 1..];
  }

  lemma ValHead(s: seq<digit>)
    ensures Val(s) == Head(s) + RADIX * Val(if |s| == 0 then [] else s[1..])
  {
    Empty();
  }

  /** The low bits of a number are those of its lowest digit. */
  lemma HeadMod(s: seq<digit>, p: nat, q: nat)
    requires p > 0 && q > 0 && p * q == RADIX
    ensures Val(s) % p == Head(s) % p
  {
    ValHead(s);
    var d, v := Head(s), Val(if |s| == 0 then [] else s[1..]);
    var m := d / p + q * v;
    assert Val(s) == m * p + d % p by {
      MulDist(d / p, q * v, p);
      MulComm(q * v, p);
      MulAssoc(p, q, v);
    }
    DivUnique(Val(s), p, m, d % p);
  }

  lemma ShiftDownMath(o: nat, h: nat, e: nat, v: nat, t: nat, t': nat, low: nat, p: nat, q: nat)
    requires p > 0 && q > 0 && p * q == RADIX
    requires v == o + RADIX * h && low == h % p && t == h / p
    requires e == o / p + low * q && t' == e + RADIX * t
    ensures t' == v / p
  {
    assert v == t' * p + o % p by {
      assert h == t * p + low;
      MulDist(o / p + low * q, RADIX * t, p);
      MulDist(o / p, low * q, p);
      MulAssoc(low, q, p);
      MulComm(q, p);
      MulComm(RADIX * t, p);
      MulAssoc(p, RADIX, t);
      MulComm(p, RADIX);
      MulAssoc(RADIX, p, t);
      MulDist2(RADIX, t * p, low);
      MulComm(low, RADIX);
      MulComm(p, t);
    }
    DivUnique(v, p, t', o % p);
  }

  /** Quick division by 2^p2: the magnitude is rounded down, the sign kept unless the result
      is zero (imath.c:2916). */
  method QDiv(z: MpInt, p2: nat)
    requires z.Valid()
    modifies z`used, z`negative, z.digits
    ensures z.Valid() && z.Mag() == Shr(old(z.Mag()), p2)
    ensures z.negative == (old(z.negative) && z.Mag() != 0)
  {
    hide Val, Run, Canonical, Pow2, Pow, Shr;
    var ndig, nbits := p2 / DIGIT_BIT, p2 % DIGIT_BIT;
    ShrShr(z.Mag(), DIGIT_BIT * ndig, nbits);
    if ndig != 0 {
      if ndig >= z.used {
        ShiftedOut(Run(z.digits, 0, z.used), p2);
        z.SetZero();
        return;
      }
      DivDigits(z, ndig);
    }
    if nbits != 0 {
      DivBits(z, nbits);
    }
    ShrShr(z.Mag(), 0, 0);
    MagZero(z);
    if z.used == 1 && z.digits[0] == 0 {
      z.negative := false;
    }
  }

  lemma ShiftedOut(s: seq<digit>, p2: nat)
    requires |s| <= p2 / DIGIT_BIT
    ensures Shr(Val(s), p2) == 0
  {
    hide Val, Pow, Pow2;
    ValBound(s);
    PowMono(|s|, p2 / DIGIT_BIT);
    Pow2Parts(p2);
    MulMono(1, Pow2(p2 % DIGIT_BIT), Pow(p2 / DIGIT_BIT));
    DivUnique(Val(s), Pow2(p2), 0, Val(s));
  }

  // ---- s_qmul ----

  /** Moving digits up by need places, zeros below (imath.c:3032). */
  method MulDigits(z: MpInt, need: nat)
    requires z.Sized() && z.used + need <= z.digits.Length
    modifies z.digits
    ensures Run(z.digits, need, z.used) == old(Run(z.digits, 0, z.used))
    ensures forall k :: 0 <= k < need ==> z.digits[k] == 0
  {
    hide Val, Run;
    var uz := z.used;
    ghost var s := Run(z.digits, 0, uz);
    var i := 0;
    while i < uz
      invariant i <= uz
      invariant forall k :: 0 <= k < uz - i ==> z.digits[k] == s[k]
      invariant forall k :: uz - i <= k < uz ==> z.digits[k + need] == s[k]
    {
      z.digits[uz - 1 - i + need] := z.digits[uz - 1 - i];
      i := i + 1;
    }
    forall k | 0 <= k < need {
      z.digits[k] := 0;
    }
  }

  lemma RaiseDigits(t: seq<digit>, n: nat)
    requires n < |t| && forall k :: 0 <= k < n ==> t[k] == 0
    ensures Val(t) == Val(t[n..]) * Pow(n)
  {
    ValSplit(t, n);
    ValZeros(t[..n]);
    MulComm(Pow(n), Val(t[n..]));
  }

  /** The digit that s_qmul stores: o shifted up, the high bits of the digit d below it underneath. */
  function UpDigit(o: digit, d: digit, k: nat): digit
    requires k < DIGIT_BIT
  {
    Pow2Cut(k);
    ShiftUpFits(o, d, Pow2(k), Pow2(DIGIT_BIT - k));
    (o * Pow2(k)) % RADIX + HighBits(d, k)
  }

  /** The k bits of a digit that shifting it up by k pushes out. */
  function HighBits(d: digit, k: nat): digit
    requires k < DIGIT_BIT
  {
    DivNat(d, Pow2(DIGIT_BIT - k));
    d / Pow2(DIGIT_BIT - k)
  }

  lemma DivBelow(d: nat, p: nat, q: nat)
    requires q > 0 && d < p * q
    ensures 0 <= d / q < p
  {
    DivNat(d, q);
    if d / q >= p {
      MulMono(p, d / q, q);
    }
  }

  /** o * p splits at RADIX = p * q into the high and the low part of o, cut at q. */
  lemma ShiftUpSplit(o: nat, p: nat, q: nat, r: nat)
    requires p > 0 && q > 0 && r == p * q && r > 0
    ensures (o * p) % r == (o % q) * p && (o * p) / r == o / q
    ensures 0 <= (o % q) * p <= r - p
  {
    var hi, lo := o / q, o % q;
    assert o * p == hi * r + lo * p by {
      assert o == hi * q + lo;
      MulDist(hi * q, lo, p);
      MulAssoc(hi, q, p);
      MulComm(p, q);
    }
    MulMono(0, lo, p);
    MulMono(lo + 1, q, p);
    MulDist(lo, 1, p);
    MulComm(p, q);
    DivUnique(o * p, r, hi, lo * p);
  }

  lemma ShiftUpFits(o: digit, d: digit, p: nat, q: nat)
    requires p > 0 && q > 0 && p * q == RADIX
    ensures (o * p) % RADIX + d / q == (o % q) * p + d / q < RADIX
    ensures (o * p) / RADIX == o / q
    ensures 0 <= (o * p) % RADIX && 0 <= d / q < p
  {
    DivBelow(d, p, q);
    ShiftUpSplit(o, p, q, RADIX);
  }

  /** The bit loop of s_qmul on the n digits from lo up; what leaves the top is returned. */
  method MulBits(z: MpInt, lo: nat, n: nat, rest: nat) returns (d: digit)
    requires 0 < n && lo + n <= z.digits.Length && rest < DIGIT_BIT
    modifies z.digits
    ensures Val(Run(z.digits, lo, n)) + At(d, n) == old(Val(Run(z.digits, lo, n))) * Pow2(rest)
    ensures d == HighBits(old(z.digits[lo + n - 1]), rest)
    ensures OnlyRun(z.digits, lo, n)
  {
    hide Val, Run, Pow2, At, UpDigit, HighBits;
    ghost var s := Run(z.digits, lo, n);
    d := 0;
    var i := 0;
    BitsStart(rest);
    while i < n
      invariant i <= n
      invariant d == if i == 0 then 0 else s[i - 1]
      invariant Val(Run(z.digits, lo, i)) + At(HighBits(d, rest), i) == Val(s[..i]) * Pow2(rest)
      invariant OnlyRun(z.digits, lo, i)
    {
      var save := z.digits[lo + i];
      ghost var t := Run(z.digits, lo, i);
      z.digits[lo + i] := UpDigit(save, d, rest);
      ShiftUp(t, Run(z.digits, lo, i + 1), s, d, rest);
      d := save;
      i := i + 1;
    }
    assert s[..n] == s;
    d := HighBits(d, rest);
  }

  lemma BitsStart(k: nat)
    requires k < DIGIT_BIT
    ensures HighBits(0, k) == 0
    ensures Val([]) + At(0, 0) == Val([]) * Pow2(k)
  {
    DivUnique(0, Pow2(DIGIT_BIT - k), 0, 0);
  }

  lemma ShiftUp(t: seq<digit>, t': seq<digit>, s: seq<digit>, d: digit, k: nat)
    requires k < DIGIT_BIT && |t| < |s|
    requires t' == t + [UpDigit(s[|t|], d, k)]
    requires Val(t) + At(HighBits(d, k), |t|) == Val(s[..|t|]) * Pow2(k)
    ensures Val(t') + At(HighBits(s[|t|], k), |t| + 1) == Val(s[..|t| + 1]) * Pow2(k)
  {
    hide Val, Pow2, At;
    var n, p, q := |t|, Pow2(k), Pow2(DIGIT_BIT - k);
    Pow2Cut(k);
    var o, e := s[n], UpDigit(s[n], d, k);
    TakeSnoc(s, n);
    SnocVal(t, t', e);
    ShiftUpMath(Val(t), Val(t'), o, d, e, Val(s[..n]), Val(s[..n + 1]), p, q, n);
  }

  lemma ShiftUpMath(v: nat, v': nat, o: digit, d: digit, e: digit, x: nat, x': nat, p: nat, q: nat, n: nat)
    requires p > 0 && q > 0 && p * q == RADIX
    requires e == (o * p) % RADIX + d / q
    requires v + At(d / q, n) == x * p && v' == v + At(e, n) && x' == x + At(o, n)
    ensures v' + At(o / q, n + 1) == x' * p
  {
    ShiftUpFits(o, d, p, q);
    assert o * p == RADIX * (o / q) + (e - d / q);
    hide At;
    AtUp(o / q, n);
    AtSum(e - d / q, d / q, n);
    AtSum(Up(o / q), e - d / q, n);
    MulDist(x, At(o, n), p);
    MulComm(At(o, n), p);
    AtScale(p, o, n);
    MulComm(p, o);
  }

  /** The bit part of s_qmul: when bits leave the top they are stored as one more digit. */
  method MulRest(z: MpInt, lo: nat, n: nat, rest: nat) returns (m: nat)
    requires 0 < n && lo + n <= z.digits.Length && rest < DIGIT_BIT
    requires HighBits(z.digits[lo + n - 1], rest) != 0 ==> lo + n < z.digits.Length
    modifies z.digits
    ensures m == if HighBits(old(z.digits[lo + n - 1]), rest) != 0 then n + 1 else n
    ensures Val(Run(z.digits, lo, m)) == old(Val(Run(z.digits, lo, n))) * Pow2(rest)
    ensures OnlyRun(z.digits, lo, m)
  {
    hide Val, Run, Pow2, At, HighBits;
    var d := MulBits(z, lo, n, rest);
    ghost var t := Run(z.digits, lo, n);
    AtZero(n);
    m := n;
    if d != 0 {
      z.digits[lo + n] := d;
      m := n + 1;
      SnocVal(t, Run(z.digits, lo, m), d);
    }
  }

  /** The digits s_qmul asks room for. */
  function MulSize(used: nat, top: digit, p2: nat): nat {
    var rest := p2 % DIGIT_BIT;
    used + p2 / DIGIT_BIT + if rest != 0 && HighBits(top, rest) != 0 then 1 else 0
  }

  /** Quick multiplication by 2^p2 (imath.c:2993). */
  method QMul(z: MpInt, p2: nat)
    requires z.Valid()
    modifies z, z.digits
    ensures z.Valid() && (z.digits == old(z.digits) || fresh(z.digits))
    ensures z.Mag() == old(z.Mag()) * Pow2(p2) && z.negative == old(z.negative)
    ensures old(z.digits.Length) >= MulSize(old(z.used), old(z.digits[z.used - 1]), p2) ==> z.digits == old(z.digits)
  {
    hide Val, Run, Canonical, Pow2, Pow, HighBits, At, Padded;
    if p2 == 0 {
      Units();
      return;
    }
    var uz, need, rest := z.used, p2 / DIGIT_BIT, p2 % DIGIT_BIT;
    var extra := if rest != 0 && HighBits(z.digits[uz - 1], rest) != 0 then 1 else 0;
    ghost var s := Run(z.digits, 0, uz);
    z.Pad(uz + need + extra);
    assert Run(z.digits, 0, uz) == s;
    if need > 0 {
      MulDigits(z, need);
    }
    assert Run(z.digits, need, uz)[uz - 1] == s[uz - 1];
    if rest != 0 {
      uz := MulRest(z, need, uz, rest);
    }
    z.used := need + uz;
    assert Run(z.digits, 0, z.used)[need..] == Run(z.digits, need, uz);
    RaiseDigits(Run(z.digits, 0, z.used), need);
    MulParts(Val(s), Val(Run(z.digits, need, uz)), p2);
    z.Clamp();
  }

  lemma MulParts(v: nat, t: nat, p2: nat)
    requires t == if p2 % DIGIT_BIT == 0 then v else v * Pow2(p2 % DIGIT_BIT)
    ensures t * Pow(p2 / DIGIT_BIT) == v * Pow2(p2)
  {
    Pow2Parts(p2);
    Units();
    var p, q := Pow2(p2 % DIGIT_BIT), Pow(p2 / DIGIT_BIT);
    MulAssoc(v, p, q);
    MulComm(p, q);
  }

  // ---- s_qmod ----

  /** Quick remainder by 2^p2 (imath.c:2973).  The sign is kept; the digit the mask was
      applied to stays in the buffer even when it is clamped away. */
  method QMod(z: MpInt, p2: nat)
    requires z.Valid()
    modifies z`used, z.digits
    ensures z.Valid() && z.Mag() == old(z.Mag()) % Pow2(p2)
    ensures z.used <= old(z.used) && z.used <= p2 / DIGIT_BIT + 1
    ensures old(z.used) > p2 / DIGIT_BIT ==>
              z.digits[p2 / DIGIT_BIT] == old(z.digits[p2 / DIGIT_BIT]) % Pow2(p2 % DIGIT_BIT)
    ensures forall k :: 0 <= k < z.digits.Length && k != p2 / DIGIT_BIT ==> z.digits[k] == old(z.digits[k])
  {
    hide Val, Run, Pow2, Canonical;
    var start, rest := p2 / DIGIT_BIT + 1, p2 % DIGIT_BIT;
    ghost var s := Run(z.digits, 0, z.used);
    if start <= z.used {
      z.used := start;
      MaskFits(z.digits[start - 1], rest);
      z.digits[start - 1] := z.digits[start - 1] % Pow2(rest);
      MaskTop(s, Run(z.digits, 0, start), p2);
      z.Clamp();
    } else {
      SmallMod(s, p2);
    }
  }

  lemma MaskFits(d: digit, k: nat)
    ensures 0 <= d % Pow2(k) < RADIX
  {
    DivNat(d, Pow2(k));
    MulMono(0, d / Pow2(k), Pow2(k));
  }

  lemma MaskTop(s: seq<digit>, t: seq<digit>, p2: nat)
    requires p2 / DIGIT_BIT < |s| && |t| == p2 / DIGIT_BIT + 1
    requires t[..|t| - 1] == s[..|t| - 1] && t[|t| - 1] == s[|t| - 1] % Pow2(p2 % DIGIT_BIT)
    ensures Val(t) == Val(s) % Pow2(p2)
  {
    hide Val, Pow, Pow2, At;
    var n, k := p2 / DIGIT_BIT, p2 % DIGIT_BIT;
    ValSplit(s, n);
    ValSnoc(t, n);
    ValBound(s[..n]);
    Pow2Cut(k);
    HeadMod(s[n..], Pow2(k), Pow2(DIGIT_BIT - k));
    Pow2Parts(p2);
    AtPow(t[n], n);
    MaskMath(Val(s[..n]), Val(s[n..]), t[n], Val(s), Val(t), Pow(n), Pow2(k));
  }

  lemma AtPow(d: int, n: nat)
    ensures At(d, n) == Pow(n) * d
  {
  }

  lemma MaskMath(lo: nat, hi: nat, low: nat, v: nat, t: nat, p: nat, q: nat)
    requires p > 0 && q > 0 && lo < p && low == hi % q
    requires v == lo + p * hi && t == lo + p * low
    ensures p * q > 0 && t == v % (p * q)
  {
    MulMono(1, p, q);
    assert v == (hi / q) * (p * q) + t by {
      assert hi == (hi / q) * q + low;
      MulDist2(p, (hi / q) * q, low);
      MulAssoc(p, hi / q, q);
      MulComm(p, hi / q);
      MulAssoc(hi / q, p, q);
    }
    MulMono(low + 1, q, p);
    MulDist(low, 1, p);
    MulMono(0, low, p);
    DivUnique(v, p * q, hi / q, t);
  }

  lemma SmallMod(s: seq<digit>, p2: nat)
    requires |s| <= p2 / DIGIT_BIT
    ensures Val(s) == Val(s) % Pow2(p2)
  {
    hide Val, Pow2;
    ShiftedOut(s, p2);
  }

  // ---- s_qsub ----

  /** Quick subtraction from 2^p2 (imath.c:3075).  The tdig + 1 digits it rewrites become
      2^p2 minus what they were, but the length is not brought up to date: the number keeps
      only the digits it had.  So the number itself is always subtracted from the power of RADIX
      of its own length; and what lies above it in the buffer must not spoil the difference if the
      assertion that no borrow is left is to hold. */
  method QSub(z: MpInt, p2: nat) returns (ghost noBorrow: bool)
    requires z.Valid()
    modifies z, z.digits
    ensures z.Valid() && !z.negative && z.used <= old(z.used)
    ensures (z.digits == old(z.digits) || fresh(z.digits)) && z.digits.Length >= old(z.digits.Length)
    ensures old(z.Mag()) > 0 && old(z.used) <= p2 / DIGIT_BIT ==>
              Pow(old(z.used)) > old(z.Mag()) && z.Mag() == Pow(old(z.used)) - old(z.Mag())
    ensures old(p2 / DIGIT_BIT < z.digits.Length && Val(Run(z.digits, 0, p2 / DIGIT_BIT + 1)) <= Pow2(p2)) ==>
              && noBorrow && p2 / DIGIT_BIT < z.digits.Length
              && Val(Run(z.digits, 0, p2 / DIGIT_BIT + 1))
                 == Pow2(p2) - old(Val(Run(z.digits, 0, p2 / DIGIT_BIT + 1)))
              && z.Mag() == Val(Run(z.digits, 0, old(z.used)))
  {
    hide Val, Run, Pow2, Pow, At, Lower, Upper, Canonical, Padded;
    var tdig, hi := p2 / DIGIT_BIT, TopBit(p2 % DIGIT_BIT);
    ghost var n, v := z.used, Run(z.digits, 0, z.used);
    z.Pad(tdig + 1);
    assert Run(z.digits, 0, n) == v;
    ghost var s := Run(z.digits, 0, tdig + 1);
    noBorrow := Complement(z, tdig, hi, s, v, p2);
    z.negative := false;
    z.Clamp();
  }

  /** The loop of s_qsub and the step after it. */
  method Complement(z: MpInt, tdig: nat, hi: digit, ghost s: seq<digit>, ghost v: seq<digit>, ghost p2: nat)
    returns (ghost noBorrow: bool)
    requires tdig < z.digits.Length && |v| <= z.digits.Length
    requires tdig == p2 / DIGIT_BIT && 0 < hi == TopBit(p2 % DIGIT_BIT)
    requires s == Run(z.digits, 0, tdig + 1) && v == Run(z.digits, 0, |v|)
    modifies z.digits
    ensures 0 < |v| <= tdig && Val(v) > 0 ==>
              Pow(|v|) > Val(v) && Val(Run(z.digits, 0, |v|)) == Pow(|v|) - Val(v)
    ensures Val(s) <= Pow2(p2) ==> noBorrow && Val(Run(z.digits, 0, tdig + 1)) == Pow2(p2) - Val(s)
  {
    hide Val, Run, Pow2, Pow, At, Lower, Upper, Canonical;
    ghost var low: seq<digit> := [];
    Empty();
    var pos, w: word := 0, 0;
    while pos < tdig
      invariant pos <= tdig && w <= 1
      invariant Val(Run(z.digits, 0, pos)) + Val(s[..pos]) == At(w, pos)
      invariant OnlyRun(z.digits, 0, pos)
      invariant |v| <= pos && 0 < |v| && Val(v) > 0 ==>
                  Pow(|v|) > Val(v) && Val(Run(z.digits, 0, |v|)) == Pow(|v|) - Val(v)
    {
      ghost var c, k := Run(z.digits, 0, pos), w;
      ghost var was := if |v| <= pos then Run(z.digits, 0, |v|) else [];
      w := RADIX - w - z.digits[pos];
      z.digits[pos] := Lower(w);
      ComplementStep(c, Run(z.digits, 0, pos + 1), s, 0, k, w);
      w := if Upper(w) != 0 then 0 else 1;
      pos := pos + 1;
      if |v| == pos {
        assert s[..pos] == v;
        LowComplement(Run(z.digits, 0, pos), v, w);
      } else if |v| < pos {
        assert Run(z.digits, 0, |v|) == was;
      }
    }
    ghost var c, k := Run(z.digits, 0, pos), w;
    ghost var was := if |v| <= pos then Run(z.digits, 0, |v|) else [];
    w := RADIX + hi - w - z.digits[tdig];
    z.digits[tdig] := Lower(w);
    ComplementStep(c, Run(z.digits, 0, pos + 1), s, hi, k, w);
    assert s[..tdig + 1] == s;
    noBorrow := Upper(w) != 0;
    if Val(s) <= Pow2(p2) {
      NoBorrowOut(Run(z.digits, 0, tdig + 1), Val(s), w, hi, p2);
    }
    if |v| <= tdig {
      assert Run(z.digits, 0, |v|) == was;
    }
  }

  lemma LowComplement(c: seq<digit>, v: seq<digit>, w: nat)
    requires |c| == |v| && w <= 1 && Val(c) + Val(v) == At(w, |v|)
    ensures Val(v) > 0 ==> Pow(|v|) > Val(v) && Val(c) == Pow(|v|) - Val(v)
  {
    hide Val, Pow;
    ValBound(v);
  }

  function TopBit(k: nat): digit
    requires k < DIGIT_BIT
  {
    Pow2Less(k);
    Pow2(k)
  }

  lemma Pow2Less(k: nat)
    requires k < DIGIT_BIT
    ensures Pow2(k) < RADIX
  {
    Pow2Cut(k);
    assert Pow2(DIGIT_BIT - k) >= 2;
    MulMono(2, Pow2(DIGIT_BIT - k), Pow2(k));
  }

  lemma ComplementStep(c: seq<digit>, c': seq<digit>, s: seq<digit>, hi: digit, k: nat, w: nat)
    requires |c| < |s| && k <= 1 && w == RADIX + hi - k - s[|c|]
    requires c' == c + [Lower(w)]
    requires Val(c) + Val(s[..|c|]) == At(k, |c|)
    ensures Val(c') + Val(s[..|c| + 1]) == At(hi, |c|) + At(if Upper(w) == 0 then 1 else 0, |c| + 1)
    ensures hi == 0 ==> At(hi, |c|) == 0
  {
    hide *;
    var n := |c|;
    AtZero(n);
    TakeSnoc(s, n);
    SnocVal(c, c', Lower(w));
    BorrowMath(Val(c), k, hi, s[n], w, 0, Val(s[..n]), n);
  }

  lemma NoBorrowOut(t: seq<digit>, v: nat, w: nat, hi: digit, p2: nat)
    requires |t| == p2 / DIGIT_BIT + 1 && hi == TopBit(p2 % DIGIT_BIT)
    requires v <= Pow2(p2)
    requires Val(t) + v == At(hi, |t| - 1) + At(if Upper(w) == 0 then 1 else 0, |t|)
    ensures Upper(w) != 0 && Val(t) == Pow2(p2) - v
  {
    hide Val, Upper, Pow2;
    ValBound(t);
    Pow2Parts(p2);
    AtPow(hi, |t| - 1);
    AtZero(|t|);
    AtPow(1, |t|);
  }

  // ---- s_dp2k ----

  /** The exponent of 2 in a nonzero number; 1 for zero (imath.c:3110). */
  method DP2K(z: MpInt) returns (k: nat)
    requires z.Valid()
    ensures z.Mag() == 0 ==> k == 1
    ensures z.Mag() != 0 ==> z.Mag() == Shr(z.Mag(), k) * Pow2(k) && Shr(z.Mag(), k) % 2 == 1
  {
    hide Val, Run, Canonical, Pow2, Shr;
    MagZero(z);
    if z.used == 1 && z.digits[0] == 0 {
      return 1;
    }
    ghost var s := Run(z.digits, 0, z.used);
    var i := 0;
    while z.digits[i] == 0
      invariant i < z.used
      invariant forall j :: 0 <= j < i ==> z.digits[j] == 0
      decreases z.used - i
    {
      if i + 1 == z.used {
        ValZeros(s);
      }
      i := i + 1;
    }
    k := i * DIGIT_BIT;
    var d := z.digits[i];
    ghost var b := 0;
    Units();
    while d % 2 == 0
      invariant d > 0 && s[i] == d * Pow2(b)
      invariant k == i * DIGIT_BIT + b
      decreases d
    {
      HalveDigit(d, b, s[i]);
      d := d / 2;
      k := k + 1;
      b := b + 1;
    }
    OddPart(s, i, d, b);
  }

  lemma HalveDigit(d: nat, b: nat, o: nat)
    requires d % 2 == 0 && d > 0 && o == d * Pow2(b)
    ensures d / 2 > 0 && o == (d / 2) * Pow2(b + 1)
  {
    var h := d / 2;
    assert d == h * 2;
    MulAssoc(h, 2, Pow2(b));
  }

  lemma OddPart(s: seq<digit>, i: nat, d: nat, b: nat)
    requires i < |s| && forall j :: 0 <= j < i ==> s[j] == 0
    requires d % 2 == 1 && s[i] == d * Pow2(b)
    ensures var k := i * DIGIT_BIT + b;
            Val(s) == Shr(Val(s), k) * Pow2(k) && Shr(Val(s), k) % 2 == 1
  {
    hide Val;
    RaiseDigits(s, i);
    SuffixHead(s, i);
    BitInDigit(d, b);
    Pow2Cut(b);
    assert Pow2(DIGIT_BIT - b) == 2 * Pow2(DIGIT_BIT - b - 1);
    Pow2Digits(i);
    Pow2Add(i * DIGIT_BIT, b);
    OddMath(Val(s), Val(s[i..]), Val(s[i + 1..]), d, Pow2(b), Pow2(DIGIT_BIT - b - 1), Pow(i), Pow2(i * DIGIT_BIT + b));
  }

  lemma BitInDigit(d: nat, b: nat)
    requires d >= 1 && d * Pow2(b) < RADIX
    ensures b < DIGIT_BIT
  {
    if b >= DIGIT_BIT {
      Pow2Radix();
      Pow2Add(DIGIT_BIT, b - DIGIT_BIT);
      MulMono(1, Pow2(b - DIGIT_BIT), RADIX);
      MulMono(1, d, Pow2(b));
    }
  }

  lemma OddMath(v: nat, vi: nat, h: nat, d: nat, p: nat, q: nat, w: nat, pk: nat)
    requires d % 2 == 1 && p > 0 && w > 0
    requires p * (2 * q) == RADIX && pk == w * p && pk > 0
    requires v == vi * w && vi == d * p + RADIX * h
    ensures v == (v / pk) * pk && (v / pk) % 2 == 1
  {
    var m := d + 2 * (q * h);
    assert vi == m * p by {
      MulDist(d, 2 * (q * h), p);
      assert RADIX * h == (2 * (q * h)) * p by {
        MulAssoc(p, 2 * q, h);
        MulAssoc(2, q, h);
        MulComm(p, 2 * (q * h));
      }
    }
    assert v == m * pk by {
      MulAssoc(m, p, w);
      MulComm(p, w);
    }
    DivUnique(v, pk, m, 0);
    assert m % 2 == 1;
  }
}
