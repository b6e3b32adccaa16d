/** s_usqr (imath.c:2738): squaring with a word that the doubled products overflow. */
module Squaring {
  import opened Digits
  import opened DigitLoops

  // ---- The saturated word ----

  /** The body of the inner loop on one digit: t is the product, w the carry in, z the digit
      underneath.  Additions are those of mp_word, modulo WORD; the flag ov stands for a
      lost WORD and is put back as one RADIX of carry. */
  function SqrWord(t: word, w: word, z: digit): (r: (digit, nat)) {
    var u := (w + z) % WORD;
    var d := (t + t) % WORD;
    var ov := t >= WORD / 2 || WORD - 1 - u < d;
    var e := (d + u) % WORD;
    (Lower(e), if ov then (Upper(e) + (RADIX - 1) + 1) % WORD else Upper(e))
  }

  /** The single flag is exact: the sum overflows at most once, and the carry that leaves
      is again at most 2 * RADIX - 2. */
  lemma SqrWordExact(x: digit, y: digit, w: word, z: digit)
    requires w <= 2 * RADIX - 2
    ensures 0 <= x * y < WORD
    ensures SqrWord(x * y, w, z) == (Lower(2 * (x * y) + w + z), Upper(2 * (x * y) + w + z))
    ensures Upper(2 * (x * y) + w + z) <= 2 * RADIX - 2
  {
    var t := x * y;
    assert 0 <= t <= (RADIX - 1) * (RADIX - 1) by {
      MulMono(x, RADIX - 1, y);
      MulMono(y, RADIX - 1, RADIX - 1);
    }
    Overflow(t, w, z);
  }

  lemma ModOnce(x: nat, m: nat)
    requires x < 2 * m
    ensures x % m == if x < m then x else x - m
  {
  }

  lemma Overflow(t: word, w: word, z: digit)
    requires t <= (RADIX - 1) * (RADIX - 1) && w <= 2 * RADIX - 2
    ensures SqrWord(t, w, z) == (Lower(2 * t + w + z), Upper(2 * t + w + z))
    ensures Upper(2 * t + w + z) <= 2 * RADIX - 2
  {
    ModOnce(w + z, WORD);
    ModOnce(t + t, WORD);
    ModOnce((t + t) % WORD + (w + z), WORD);
    LostWord(2 * t + w + z);
  }

  /** What the flag puts back: a lost word leaves the low digit and takes RADIX off the high. */
  lemma LostWord(e: nat)
    requires e <= 2 * (RADIX - 1) * (RADIX - 1) + 3 * RADIX - 3
    ensures Upper(e) <= 2 * RADIX - 2
    ensures e >= WORD ==> Lower(e - WORD) == Lower(e) && Upper(e - WORD) + RADIX == Upper(e) < WORD
    ensures e < WORD ==> Upper(e) < RADIX
  {
  }

  // ---- One row ----

  /** The pass of s_usqr for the digit x = da[ao]: the square of x and twice its products
      with the digits above it are added onto the digits at dc[co].  With v the value of
      the n digits from x up, that is 2xv - x^2; the caller promises that it fits. */
  method SqrRow(da: array<digit>, ao: nat, dc: array<digit>, co: nat, n: nat)
    requires n > 0 && ao + n <= da.Length && co + 2 * n <= dc.Length && dc != da
    requires Val(Run(dc, co, 2 * n)) + Cross(da[ao], Val(Run(da, ao, n))) < Pow(2 * n)
    modifies dc
    ensures Val(Run(dc, co, 2 * n)) == old(Val(Run(dc, co, 2 * n))) + Cross(da[ao], Val(Run(da, ao, n)))
    ensures OnlyRun(dc, co, 2 * n)
  {
    hide Val, At, Lower, Upper, Run, Pow, SqrWord, Cross;
    ghost var h, s := Run(da, ao, n), Run(dc, co, 2 * n);
    var x: int := da[ao];
    // The first digit, no rollover.
    MulFits(x, x, 0, dc[co]);
    var w: word := x * x + dc[co];
    dc[co] := Lower(w);
    FirstStep(Run(dc, co, 1), x, h, s, w);
    w := Upper(w);
    var j := 1;
    while j < n
      invariant 1 <= j <= n && w <= 2 * RADIX - 2
      invariant Val(Run(dc, co, j)) + At(w, j) == Val(s[..j]) + Cross(x, Val(h[..j]))
      invariant OnlyRun(dc, co, j)
    {
      ghost var c, k := Run(dc, co, j), w;
      var y: int := da[ao + j];
      SqrWordExact(x, y, w, dc[co + j]);
      var (d, carry) := SqrWord(x * y, w, dc[co + j]);
      dc[co + j] := d;
      SqrStep(c, Run(dc, co, j + 1), x, y, h, s, k, 2 * (x * y) + k + s[j]);
      w := carry;
      j := j + 1;
    }
    assert h[..j] == h;
    RowCarry(dc, co, w, n, s, Cross(x, Val(h)));
  }

  /** 2xv - x^2: what row x of a square contributes when v is the value from x up. */
  ghost function Cross(x: int, v: int): int {
    2 * (x * v) - x * x
  }

  lemma FirstStep(c: seq<digit>, x: digit, h: seq<digit>, s: seq<digit>, w: nat)
    requires |h| > 0 && |s| > 0 && h[0] == x && w == x * x + s[0]
    requires c == [Lower(w)]
    ensures Val(c) + At(Upper(w), 1) == Val(s[..1]) + Cross(x, Val(h[..1]))
    ensures Upper(w) <= 2 * RADIX - 2
  {
    ValOne(c);
    ValOne(s[..1]);
    ValOne(h[..1]);
    MulFits(x, x, 0, s[0]);
    Halves(w);
    assert At(Upper(w), 1) == Up(Upper(w)) by {
      hide *;
      AtUp(Upper(w), 0);
      AtUnit(Up(Upper(w)));
    }
  }

  lemma AtUnit(d: int)
    ensures At(d, 0) == d
  {
  }

  lemma SqrStep(c: seq<digit>, c': seq<digit>, x: digit, y: digit, h: seq<digit>, s: seq<digit>, k: nat, w: nat)
    requires |c| < |h| && |c| < |s| && y == h[|c|] && w == 2 * (x * y) + k + s[|c|]
    requires c' == c + [Lower(w)]
    requires Val(c) + At(k, |c|) == Val(s[..|c|]) + Cross(x, Val(h[..|c|]))
    ensures Val(c') + At(Upper(w), |c| + 1) == Val(s[..|c| + 1]) + Cross(x, Val(h[..|c| + 1]))
  {
    hide *;
    var n := |c|;
    TakeSnoc(h, n);
    TakeSnoc(s, n);
    SnocVal(c, c', Lower(w));
    SqrMath(Val(c), Val(c'), k, x, y, s[n], w, Val(s[..n]), Val(s[..n + 1]), Val(h[..n]), Val(h[..n + 1]), n);
  }

  lemma SqrMath(v: int, v': int, k: int, x: int, y: int, z: int, w: nat,
                vs: int, vs': int, vh: int, vh': int, n: nat)
    requires w == 2 * (x * y) + k + z
    requires v + At(k, n) == vs + Cross(x, vh)
    requires v' == v + At(Lower(w), n) && vs' == vs + At(z, n) && vh' == vh + At(y, n)
    ensures v' + At(Upper(w), n + 1) == vs' + Cross(x, vh')
  {
    assert Cross(x, vh') == Cross(x, vh) + 2 * (x * At(y, n)) by {
      MulDist2(x, vh, At(y, n));
    }
    hide *;
    AddMath(v, k, 2 * (x * y), z, w, vs + Cross(x, vh), n);
    AtScale(x, y, n);
    AtSum(x * y, x * y, n);
  }

  /** The carry loop that ends a row.  It stops inside the run because the result fits. */
  method RowCarry(dc: array<digit>, co: nat, carry: word, n: nat, ghost s: seq<digit>, ghost y: int)
    requires 0 < n && co + 2 * n <= dc.Length && |s| == 2 * n && carry <= 2 * RADIX - 2
    requires Val(Run(dc, co, n)) + At(carry, n) == Val(s[..n]) + y
    requires forall k :: n <= k < 2 * n ==> dc[co + k] == s[k]
    requires Val(s) + y < Pow(2 * n)
    modifies dc
    ensures Val(Run(dc, co, 2 * n)) == Val(s) + y
    ensures forall k :: 0 <= k < dc.Length && !(co + n <= k < co + 2 * n) ==> dc[k] == old(dc[k])
  {
    hide Val, At, Lower, Upper, Run, Pow;
    var w: word := carry + dc[co + n];
    ghost var c := Run(dc, co, n);
    dc[co + n] := Lower(w);
    CarryRowStep(c, Run(dc, co, n + 1), s, carry, w, y);
    w := Upper(w);
    var p := n + 1;
    while w != 0
      invariant n < p <= 2 * n && w < RADIX
      invariant Val(Run(dc, co, p)) + At(w, p) == Val(s[..p]) + y
      invariant forall k :: p <= k < 2 * n ==> dc[co + k] == s[k]
      invariant forall k :: 0 <= k < dc.Length && !(co + n <= k < co + 2 * n) ==> dc[k] == old(dc[k])
      decreases 2 * n - p
    {
      if p == 2 * n {
        NoCarryOut(Run(dc, co, p), s, w, y);
      }
      ghost var c, k := Run(dc, co, p), w;
      w := w + dc[co + p];
      dc[co + p] := Lower(w);
      CarryRowStep(c, Run(dc, co, p + 1), s, k, w, y);
      w := Upper(w);
      p := p + 1;
    }
    AtZero(p);
    ValSplit(s, p);
    ValSplit(Run(dc, co, 2 * n), p);
    assert Run(dc, co, 2 * n)[..p] == Run(dc, co, p);
    assert Run(dc, co, 2 * n)[p..] == s[p..];
  }

  lemma CarryRowStep(c: seq<digit>, c': seq<digit>, s: seq<digit>, k: nat, w: nat, y: int)
    requires |c| < |s| && w == k + s[|c|] && w < WORD
    requires c' == c + [Lower(w)]
    requires Val(c) + At(k, |c|) == Val(s[..|c|]) + y
    ensures Val(c') + At(Upper(w), |c| + 1) == Val(s[..|c| + 1]) + y
    ensures Upper(w) < RADIX
  {
    assert Upper(w) < RADIX;
    hide *;
    TakeSnoc(s, |c|);
    SnocVal(c, c', Lower(w));
    CarryMath(Val(c), k, s[|c|], w, Val(s[..|c|]) + y, |c|);
  }

  lemma NoCarryOut(c: seq<digit>, s: seq<digit>, w: nat, y: int)
    requires |c| == |s|
    requires Val(c) + At(w, |c|) == Val(s[..|c|]) + y
    requires Val(s) + y < Pow(|s|)
    ensures w == 0
  {
    hide Val, Pow;
    assert s[..|c|] == s;
    if w > 0 {
      AtMono(1, w, |c|);
    }
  }

  // ---- The whole square ----

  /** Schoolbook square into zeroed digits (imath.c:2738). */
  method USqr(da: array<digit>, ao: nat, dc: array<digit>, co: nat, size: nat)
    requires ao + size <= da.Length && co + 2 * size <= dc.Length && dc != da
    requires forall k :: co <= k < co + 2 * size ==> dc[k] == 0
    modifies dc
    ensures Val(Run(dc, co, 2 * size)) == Val(Run(da, ao, size)) * Val(Run(da, ao, size))
    ensures OnlyRun(dc, co, 2 * size)
  {
    hide Val, At, Run, Pow, Cross;
    ghost var a, n := Run(da, ao, size), 2 * size;
    ValZeros(Run(dc, co, n));
    assert a[0..] == a;
    SquareStart(Val(a));
    var i := 0;
    while i < size
      invariant i <= size
      invariant Val(Run(dc, co, n)) + Rest(2 * i, Val(a[i..])) == Val(a) * Val(a)
      invariant OnlyRun(dc, co, n)
    {
      ghost var c := Run(dc, co, n);
      RowFits(c, a, i);
      assert Run(da, ao + i, size - i) == a[i..];
      assert Run(dc, co + 2 * i, n - 2 * i) == c[2 * i..];
      if da[ao + i] != 0 {
        SqrRow(da, ao + i, dc, co + 2 * i, size - i);
      } else {
        CrossZero(Val(a[i..]));
      }
      assert Run(dc, co, n)[2 * i..] == Run(dc, co + 2 * i, n - 2 * i);
      SquareStep(c, Run(dc, co, n), a, i, Val(a) * Val(a));
      i := i + 1;
    }
    assert a[i..] == [];
    Empty();
    RestZero(2 * i);
  }

  /** The part of a square that the rows from digit k / 2 on still have to add. */
  ghost function Rest(k: nat, v: int): int {
    Pow(k) * (v * v)
  }

  lemma SquareStart(v: int)
    ensures Rest(0, v) == v * v
  {
  }

  lemma RestZero(k: nat)
    ensures Rest(k, 0) == 0
  {
  }

  lemma CrossZero(v: int)
    ensures Cross(0, v) == 0
  {
  }

  /** v^2 with v = x + RADIX * v' is the contribution of x and the square of v', two places up. */
  lemma CrossMath(x: int, v: int, v': int, k: nat)
    requires v == x + Up(v')
    ensures Pow(k) * Cross(x, v) + Rest(k + 2, v') == Rest(k, v)
  {
    var u := Up(v');
    assert v * v == Cross(x, v) + u * u by {
      MulDist(x, u, x + u);
      MulDist2(x, x, u);
      MulDist2(u, x, u);
    }
    assert u * u == RADIX * (RADIX * (v' * v')) by {
      MulAssoc(RADIX, v', u);
      MulComm(v', u);
      MulAssoc(RADIX, v', v');
    }
    assert Pow(k + 2) == Pow(k) * (RADIX * RADIX) by {
      PowAdd(k, 2);
      assert Pow(2) == RADIX * Pow(1) && Pow(1) == RADIX * Pow(0);
    }
    RestMath(Pow(k), Pow(k + 2), Cross(x, v), u * u, v' * v', v * v);
  }

  lemma RestMath(p: int, p2: int, cross: int, uu: int, q: int, vv: int)
    requires vv == cross + uu && uu == RADIX * (RADIX * q) && p2 == p * (RADIX * RADIX)
    ensures p * cross + p2 * q == p * vv
  {
    MulDist2(p, cross, uu);
    MulAssoc(RADIX, RADIX, q);
    MulAssoc(p, RADIX * RADIX, q);
  }

  lemma SuffixVal(a: seq<digit>, i: nat)
    requires i < |a|
    ensures Val(a[i..]) == a[i] + Up(Val(a[i + 1..]))
  {
    assert a[i..][1..] == a[i + 1..];
  }

  lemma SquareStep(c: seq<digit>, c': seq<digit>, a: seq<digit>, i: nat, square: int)
    requires i < |a| && |c| == |c'| && 2 * i <= |c|
    requires c'[..2 * i] == c[..2 * i]
    requires Val(c'[2 * i..]) == Val(c[2 * i..]) + Cross(a[i], Val(a[i..]))
    requires Val(c) + Rest(2 * i, Val(a[i..])) == square
    ensures Val(c') + Rest(2 * i + 2, Val(a[i + 1..])) == square
  {
    hide *;
    SpliceTail(c, c', 2 * i, Cross(a[i], Val(a[i..])));
    SuffixVal(a, i);
    CrossMath(a[i], Val(a[i..]), Val(a[i + 1..]), 2 * i);
  }

  lemma SpliceTail(s: seq<digit>, t: seq<digit>, i: nat, x: int)
    requires |s| == |t| && i <= |s| && s[..i] == t[..i]
    requires Val(t[i..]) == Val(s[i..]) + x
    ensures Val(t) == Val(s) + Pow(i) * x
  {
    hide *;
    assert s[i..|s|] == s[i..] && t[i..|s|] == t[i..];
    Splice(s, t, i, |s|, x);
  }

  /** A row never overruns the digits above it, because the whole square fits. */
  lemma RowFits(c: seq<digit>, a: seq<digit>, i: nat)
    requires i < |a| && |c| == 2 * |a|
    requires Val(c) + Rest(2 * i, Val(a[i..])) == Val(a) * Val(a)
    ensures Val(c[2 * i..]) + Cross(a[i], Val(a[i..])) < Pow(2 * (|a| - i))
  {
    hide *;
    var p, q := Pow(2 * i), Pow(2 * (|a| - i));
    ValSplit(c, 2 * i);
    SuffixVal(a, i);
    CrossMath(a[i], Val(a[i..]), Val(a[i + 1..]), 2 * i);
    assert Val(a) * Val(a) < p * q by {
      ValBound(a);
      MulLess(Val(a), Pow(|a|));
      PowAdd(|a|, |a|);
      PowAdd(2 * i, 2 * (|a| - i));
      assert 2 * i + 2 * (|a| - i) == |a| + |a|;
    }
    RestNonneg(2 * i + 2, Val(a[i + 1..]));
    FitsMath(p, q, Val(c[..2 * i]), Val(c[2 * i..]), Cross(a[i], Val(a[i..])));
  }

  lemma RestNonneg(k: nat, v: nat)
    ensures Rest(k, v) >= 0
  {
    MulMono(0, v, v);
    MulMono(0, Pow(k), v * v);
  }

  lemma MulLess(a: nat, b: nat)
    requires a < b
    ensures a * a < b * b
  {
    MulMono(a, b, a);
    MulMono(a + 1, b, b);
    MulDist(a, 1, b);
  }

  lemma FitsMath(p: int, q: int, lo: nat, hi: int, x: int)
    requires p > 0
    requires lo + p * hi + p * x < p * q
    ensures hi + x < q
  {
    MulDist2(p, hi, x);
    if hi + x >= q {
      MulMono(q, hi + x, p);
    }
  }
}
