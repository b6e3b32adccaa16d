/** Radix-2^32 digits: the representation every imath routine works on.

    A number is a little-endian run of digits.  `Val` gives its value, and the lemmas
    below say how that value changes when a run grows, is cut in two, or is compared.
 */
module Digits {

  /** MP_DIGIT_MAX + 1 (imath.h:47): the weight of one digit. */
  const RADIX: nat := 0x1_0000_0000

  /** MP_WORD_MAX + 1 (imath.h:48). */
  const WORD: nat := 0x1_0000_0000_0000_0000

  type digit = x: int | 0 <= x < RADIX

  type word = x: int | 0 <= x < WORD

  /** LOWER_HALF and UPPER_HALF of imath.c. */
  function Lower(w: nat): digit {
    w % RADIX
  }

  function Upper(w: nat): nat {
    w / RADIX
  }

  ghost function Pow(n: nat): (p: nat)
    ensures p > 0
  {
    if n == 0 then 1 else RADIX * Pow(n - 1)
  }

  ghost function Val(s: seq<digit>): nat {
    if |s| == 0 then 0 else s[0] + RADIX * Val(s[1..])
  }

  // ---- Arithmetic helpers, so that the solver meets one product at a time ----

  lemma MulMono(a: int, b: int, c: int)
    requires a <= b && 0 <= c
    ensures a * c <= b * c
  {
  }

  lemma MulComm(a: int, b: int)
    ensures a * b == b * a
  {
  }

  lemma MulDist(a: int, b: int, c: int)
    ensures (a + b) * c == a * c + b * c
    ensures (a - b) * c == a * c - b * c
  {
  }

  lemma MulAssoc(a: int, b: int, c: int)
    ensures a * (b * c) == (a * b) * c
  {
  }

  /** What d is worth in position n.  Kept apart from Val so that carries and borrows,
      which are not digits, can be weighed too. */
  ghost function At(d: int, n: nat): int {
    d * Pow(n)
  }

  lemma AtDef(d: int, n: nat)
    ensures At(d, n) == d * Pow(n)
  {
  }

  /** What k is worth one position up. */
  ghost function Up(k: int): int {
    RADIX * k
  }

  lemma AtSum(d: int, e: int, n: nat)
    ensures At(d + e, n) == At(d, n) + At(e, n)
  {
    MulDist(d, e, Pow(n));
  }

  lemma AtUp(d: int, n: nat)
    ensures At(Up(d), n) == At(d, n + 1)
  {
    MulComm(RADIX, d);
    MulAssoc(d, RADIX, Pow(n));
  }

  lemma AtScale(d: int, e: int, n: nat)
    ensures d * At(e, n) == At(d * e, n)
  {
    MulAssoc(d, e, Pow(n));
  }

  lemma AtMono(d: int, e: int, n: nat)
    requires d <= e
    ensures At(d, n) <= At(e, n)
  {
    MulMono(d, e, Pow(n));
  }

  lemma {:induction false} PowAdd(m: nat, n: nat)
    ensures Pow(m + n) == Pow(m) * Pow(n)
  {
    if m != 0 {
      PowAdd(m - 1, n);
      MulAssoc(RADIX, Pow(m - 1), Pow(n));
    }
  }

  lemma {:induction false} PowMono(m: nat, n: nat)
    requires m <= n
    ensures Pow(m) <= Pow(n)
  {
    if m < n {
      PowMono(m, n - 1);
    }
  }

  // ---- Values of runs ----

  lemma {:induction false} ValConcat(s: seq<digit>, t: seq<digit>)
    ensures Val(s + t) == Val(s) + Pow(|s|) * Val(t)
  {
    if |s| == 0 {
      assert s + t == t;
    } else {
      assert (s + t)[1..] == s[1..] + t;
      ValConcat(s[1..], t);
      MulAssoc(RADIX, Pow(|s| - 1), Val(t));
    }
  }

  lemma ValSplit(s: seq<digit>, n: nat)
    requires n <= |s|
    ensures Val(s) == Val(s[..n]) + Pow(n) * Val(s[n..])
  {
    assert s == s[..n] + s[n..];
    ValConcat(s[..n], s[n..]);
  }

  lemma ValOne(s: seq<digit>)
    requires |s| == 1
    ensures Val(s) == s[0]
  {
    assert Val(s[1..]) == 0;
  }

  lemma ValSnoc(s: seq<digit>, n: nat)
    requires |s| == n + 1
    ensures Val(s) == Val(s[..n]) + At(s[n], n)
  {
    assert s == s[..n] + [s[n]];
    ValConcat(s[..n], [s[n]]);
    ValOne([s[n]]);
    MulComm(Pow(n), s[n]);
  }

  lemma {:induction false} ValBound(s: seq<digit>)
    ensures Val(s) < Pow(|s|)
  {
    if |s| != 0 {
      ValBound(s[1..]);
    }
  }

  lemma {:induction false} ValZeros(s: seq<digit>)
    requires forall k :: 0 <= k < |s| ==> s[k] == 0
    ensures Val(s) == 0
  {
    if |s| != 0 {
      ValZeros(s[1..]);
    }
  }

  /** Leading zero digits carry no value: what CLAMP relies on. */
  lemma ValClamp(s: seq<digit>, n: nat)
    requires n <= |s|
    requires forall k :: n <= k < |s| ==> s[k] == 0
    ensures Val(s) == Val(s[..n])
  {
    ValSplit(s, n);
    ValZeros(s[n..]);
  }

  /** A run with a nonzero top digit is at least the weight of that digit. */
  lemma ValTop(s: seq<digit>)
    requires |s| > 0
    ensures At(s[|s| - 1], |s| - 1) <= Val(s) < At(s[|s| - 1] as int + 1, |s| - 1)
  {
    ValSnoc(s, |s| - 1);
    ValBound(s[..|s| - 1]);
    AtSum(1, s[|s| - 1], |s| - 1);
  }

  /** The quotient and remainder by Pow(n) are the high and the low part of a run. */
  lemma SplitUnique(lo: nat, hi: nat, lo': nat, hi': nat, p: nat)
    requires lo < p && lo' < p
    requires lo + p * hi == lo' + p * hi'
    ensures lo == lo' && hi == hi'
  {
    if hi < hi' {
      MulMono(hi + 1, hi', p);
      MulDist(hi, 1, p);
    } else if hi' < hi {
      MulMono(hi' + 1, hi, p);
      MulDist(hi', 1, p);
    }
  }

  lemma {:induction false} ValInjective(s: seq<digit>, t: seq<digit>)
    requires |s| == |t| && Val(s) == Val(t)
    ensures s == t
  {
    if |s| != 0 {
      SplitUnique(s[0], Val(s[1..]), t[0], Val(t[1..]), RADIX);
      ValInjective(s[1..], t[1..]);
      assert s == [s[0]] + s[1..] && t == [t[0]] + t[1..];
    }
  }

  /** Same length, equal digits above i: the digit at i decides which run is smaller. */
  lemma ValLess(s: seq<digit>, t: seq<digit>, i: nat)
    requires |s| == |t| && i < |s|
    requires s[i + 1..] == t[i + 1..]
    requires s[i] < t[i]
    ensures Val(s) < Val(t)
  {
    ValSplit(s, i + 1);
    ValSplit(t, i + 1);
    assert Val(s[..i + 1]) < Val(t[..i + 1]) by {
      ValTop(s[..i + 1]);
      ValTop(t[..i + 1]);
      AtMono(1 + s[i], t[i], i);
    }
  }

  /** Adding x to the value of the digits from i to j adds x, i places up, to the run. */
  lemma Splice(s: seq<digit>, t: seq<digit>, i: nat, j: nat, x: int)
    requires |s| == |t| && i <= j <= |s|
    requires s[..i] == t[..i] && s[j..] == t[j..]
    requires Val(t[i..j]) == Val(s[i..j]) + x
    ensures Val(t) == Val(s) + Pow(i) * x
  {
    hide *;
    ValSplit(s, j);
    ValSplit(t, j);
    ValSplit(s[..j], i);
    ValSplit(t[..j], i);
    assert s[..j][..i] == s[..i] && t[..j][..i] == t[..i];
    assert s[..j][i..] == s[i..j] && t[..j][i..] == t[i..j];
    SpliceMath(Pow(i), Val(s[i..j]), Val(t[i..j]), x);
  }

  lemma SpliceMath(p: int, v: int, v': int, x: int)
    requires v' == v + x
    ensures p * v' == p * v + p * x
  {
  }
}
