/** The carry loops of imath.c on raw digit buffers (imath.c:2460-2876).

    A C pointer into a digit buffer is an array with an offset.  The source calls these
    loops with source and destination overlapping; `Behind` is the overlap they tolerate.
 */
module DigitLoops {
  import opened Digits

  /** The n digits of a that a pointer to a[o] denotes. */
  ghost function Run(a: array<digit>, o: nat, n: nat): (s: seq<digit>)
    requires o + n <= a.Length
    reads a
    ensures |s| == n
    ensures forall k :: 0 <= k < n ==> s[k] == a[o + k]
  {
    a[o..o + n]
  }

  /** Writing dc from co upwards never overtakes reading n digits of da from ao. */
  ghost predicate Behind(dc: array<digit>, co: nat, da: array<digit>, ao: nat, n: nat) {
    dc != da || co <= ao || ao + n <= co
  }

  /** Outside the n digits from co, dc is what it was. */
  twostate predicate OnlyRun(dc: array<digit>, co: nat, n: nat)
    reads dc
  {
    forall k :: 0 <= k < dc.Length && !(co <= k < co + n) ==> dc[k] == old(dc[k])
  }

  /** One step of any carry loop on values: the word w = k + y is split by LOWER_HALF
      and UPPER_HALF into the digit that lands in position n and the new carry. */
  lemma CarryMath(v: int, k: int, y: int, w: nat, x: int, n: nat)
    requires w == k + y
    requires v + At(k, n) == x
    ensures v + At(Lower(w), n) + At(Upper(w), n + 1) == x + At(y, n)
  {
    hide *;
    Halves(w);
    AtSum(Lower(w), Up(Upper(w)), n);
    AtSum(k, y, n);
    AtUp(Upper(w), n);
  }

  lemma AddMath(v: int, k: int, y: int, z: int, w: nat, x: int, n: nat)
    requires w == k + y + z
    requires v + At(k, n) == x
    ensures v + At(Lower(w), n) + At(Upper(w), n + 1) == x + At(y, n) + At(z, n)
  {
    hide *;
    CarryMath(v, k, y + z, w, x, n);
    AtSum(y, z, n);
  }

  lemma SnocVal(c: seq<digit>, c': seq<digit>, d: digit)
    requires c' == c + [d]
    ensures Val(c') == Val(c) + At(d, |c|)
  {
    hide *;
    assert c'[..|c|] == c;
    ValSnoc(c', |c|);
  }

  lemma TakeSnoc(s: seq<digit>, n: nat)
    requires n < |s|
    ensures Val(s[..n + 1]) == Val(s[..n]) + At(s[n], n)
  {
    hide *;
    ValSnoc(s[..n + 1], n);
    assert s[..n + 1][..n] == s[..n];
  }

  lemma Halves(w: nat)
    ensures Lower(w) + Up(Upper(w)) == w
  {
  }

  lemma UpperOne(w: nat)
    requires w < 2 * RADIX
    ensures Upper(w) <= 1
  {
  }

  lemma Empty()
    ensures Val([]) == 0
    ensures Pow(0) == 1
    ensures At(0, 0) == 0
  {
  }

  // ---- s_uadd ----

  /** The sum of two runs, the carry beside it (imath.c:2462). */
  method UAdd(da: array<digit>, ao: nat, db: array<digit>, bo: nat, dc: array<digit>, co: nat,
              sizeA: nat, sizeB: nat)
    returns (carry: digit)
    requires ao + sizeA <= da.Length && bo + sizeB <= db.Length
    requires co + sizeA <= dc.Length && co + sizeB <= dc.Length
    requires Behind(dc, co, da, ao, sizeA) && Behind(dc, co, db, bo, sizeB)
    modifies dc
    ensures var n := if sizeA < sizeB then sizeB else sizeA;
            && Val(Run(dc, co, n)) + At(carry, n) == old(Val(Run(da, ao, sizeA)) + Val(Run(db, bo, sizeB)))
            && OnlyRun(dc, co, n)
    ensures carry <= 1
    decreases sizeB > sizeA
  {
    hide Val, At, Lower, Upper, Run;
    if sizeB > sizeA {
      carry := UAdd(db, bo, da, ao, dc, co, sizeB, sizeA);
      return;
    }
    Empty();
    ghost var a, b := Run(da, ao, sizeA), Run(db, bo, sizeB);
    var pos, w: word := 0, 0;
    while pos < sizeB
      invariant pos <= sizeB && w <= 1
      invariant Val(Run(dc, co, pos)) + At(w, pos) == Val(a[..pos]) + Val(b[..pos])
      invariant OnlyRun(dc, co, pos)
    {
      ghost var c, k := Run(dc, co, pos), w;
      w := w + da[ao + pos] + db[bo + pos];
      dc[co + pos] := Lower(w);
      AddStep(c, Run(dc, co, pos + 1), a, b, k, w);
      w := Upper(w);
      pos := pos + 1;
    }
    assert b[..pos] == b;
    while pos < sizeA
      invariant sizeB <= pos <= sizeA && w <= 1
      invariant Val(Run(dc, co, pos)) + At(w, pos) == Val(a[..pos]) + Val(b)
      invariant OnlyRun(dc, co, pos)
    {
      ghost var c, k := Run(dc, co, pos), w;
      w := w + da[ao + pos];
      dc[co + pos] := Lower(w);
      ExtendStep(c, Run(dc, co, pos + 1), a, k, w, Val(b));
      w := Upper(w);
      pos := pos + 1;
    }
    assert a[..pos] == a;
    carry := w;
  }

  lemma AddStep(c: seq<digit>, c': seq<digit>, a: seq<digit>, b: seq<digit>, k: nat, w: nat)
    requires |c| < |a| && |c| < |b| && w == k + a[|c|] + b[|c|] && k <= 1
    requires c' == c + [Lower(w)]
    requires Val(c) + At(k, |c|) == Val(a[..|c|]) + Val(b[..|c|])
    ensures Val(c') + At(Upper(w), |c| + 1) == Val(a[..|c| + 1]) + Val(b[..|c| + 1])
    ensures Upper(w) <= 1
  {
    hide *;
    var n := |c|;
    TakeSnoc(a, n);
    TakeSnoc(b, n);
    SnocVal(c, c', Lower(w));
    AddMath(Val(c), k, a[n], b[n], w, Val(a[..n]) + Val(b[..n]), n);
    UpperOne(w);
  }

  lemma ExtendStep(c: seq<digit>, c': seq<digit>, a: seq<digit>, k: nat, w: nat, x: int)
    requires |c| < |a| && w == k + a[|c|] && k <= 1
    requires c' == c + [Lower(w)]
    requires Val(c) + At(k, |c|) == Val(a[..|c|]) + x
    ensures Val(c') + At(Upper(w), |c| + 1) == Val(a[..|c| + 1]) + x
    ensures Upper(w) <= 1
  {
    hide *;
    TakeSnoc(a, |c|);
    SnocVal(c, c', Lower(w));
    CarryMath(Val(c), k, a[|c|], w, Val(a[..|c|]) + x, |c|);
    UpperOne(w);
  }

  // ---- s_usub ----

  /** The difference of two runs; the caller promises there is no borrow out (imath.c:2502). */
  method USub(da: array<digit>, ao: nat, db: array<digit>, bo: nat, dc: array<digit>, co: nat,
              sizeA: nat, sizeB: nat)
    requires sizeB <= sizeA
    requires ao + sizeA <= da.Length && bo + sizeB <= db.Length && co + sizeA <= dc.Length
    requires Behind(dc, co, da, ao, sizeA) && Behind(dc, co, db, bo, sizeB)
    requires Val(Run(db, bo, sizeB)) <= Val(Run(da, ao, sizeA))
    modifies dc
    ensures Val(Run(dc, co, sizeA)) == old(Val(Run(da, ao, sizeA)) - Val(Run(db, bo, sizeB)))
    ensures OnlyRun(dc, co, sizeA)
  {
    hide Val, At, Lower, Upper, Run;
    Empty();
    ghost var a, b := Run(da, ao, sizeA), Run(db, bo, sizeB);
    var pos, w: word := 0, 0;
    while pos < sizeB
      invariant pos <= sizeB && w <= 1
      invariant Val(Run(dc, co, pos)) + Val(b[..pos]) == Val(a[..pos]) + At(w, pos)
      invariant OnlyRun(dc, co, pos)
    {
      ghost var c, k := Run(dc, co, pos), w;
      w := RADIX + da[ao + pos] - w - db[bo + pos];
      dc[co + pos] := Lower(w);
      SubStep(c, Run(dc, co, pos + 1), a, b, k, w);
      w := if Upper(w) == 0 then 1 else 0;
      pos := pos + 1;
    }
    assert b[..pos] == b;
    while pos < sizeA
      invariant sizeB <= pos <= sizeA && w <= 1
      invariant Val(Run(dc, co, pos)) + Val(b) == Val(a[..pos]) + At(w, pos)
      invariant OnlyRun(dc, co, pos)
    {
      ghost var c, k := Run(dc, co, pos), w;
      w := RADIX + da[ao + pos] - w;
      dc[co + pos] := Lower(w);
      BorrowStep(c, Run(dc, co, pos + 1), a, k, w, Val(b));
      w := if Upper(w) == 0 then 1 else 0;
      pos := pos + 1;
    }
    assert a[..pos] == a;
    NoBorrow(Run(dc, co, sizeA), w, Val(a), Val(b));
    assert w == 0;
  }

  /** Subtracting with a borrow is a carry step whose word is RADIX too large. */
  lemma BorrowMath(v: int, k: int, y: int, z: int, w: nat, xa: int, xb: int, n: nat)
    requires w == RADIX + y - k - z && w < 2 * RADIX
    requires v + xb == xa + At(k, n)
    ensures v + At(Lower(w), n) + (xb + At(z, n)) == xa + At(y, n) + At(if Upper(w) == 0 then 1 else 0, n + 1)
  {
    var k' := 1 - Upper(w);
    assert k' == if Upper(w) == 0 then 1 else 0 by { UpperOne(w); }
    assert Lower(w) + k + z == y + Up(k') by {
      Halves(w);
      MulDist(1, Upper(w), RADIX);
    }
    hide *;
    AtSum(Lower(w) + k, z, n);
    AtSum(Lower(w), k, n);
    AtSum(y, Up(k'), n);
    AtUp(k', n);
  }

  lemma SubStep(c: seq<digit>, c': seq<digit>, a: seq<digit>, b: seq<digit>, k: nat, w: nat)
    requires |c| < |a| && |c| < |b| && w == RADIX + a[|c|] - k - b[|c|] && k <= 1
    requires c' == c + [Lower(w)]
    requires Val(c) + Val(b[..|c|]) == Val(a[..|c|]) + At(k, |c|)
    ensures Val(c') + Val(b[..|c| + 1]) == Val(a[..|c| + 1]) + At(if Upper(w) == 0 then 1 else 0, |c| + 1)
  {
    hide *;
    var n := |c|;
    TakeSnoc(a, n);
    TakeSnoc(b, n);
    SnocVal(c, c', Lower(w));
    BorrowMath(Val(c), k, a[n], b[n], w, Val(a[..n]), Val(b[..n]), n);
  }

  lemma BorrowStep(c: seq<digit>, c': seq<digit>, a: seq<digit>, k: nat, w: nat, x: int)
    requires |c| < |a| && w == RADIX + a[|c|] - k && k <= 1
    requires c' == c + [Lower(w)]
    requires Val(c) + x == Val(a[..|c|]) + At(k, |c|)
    ensures Val(c') + x == Val(a[..|c| + 1]) + At(if Upper(w) == 0 then 1 else 0, |c| + 1)
  {
    assert At(0, |c|) == 0;
    hide *;
    var n := |c|;
    TakeSnoc(a, n);
    SnocVal(c, c', Lower(w));
    BorrowMath(Val(c), k, a[n], 0, w, Val(a[..n]), x, n);
  }

  /** A borrow left at the end would make the difference negative. */
  lemma NoBorrow(c: seq<digit>, w: nat, a: nat, b: nat)
    requires w <= 1 && b <= a
    requires Val(c) + b == a + At(w, |c|)
    ensures w == 0 && Val(c) == a - b
  {
    ValBound(c);
  }

  // ---- s_cdig, s_ucmp ----

  /** The sign of the difference of two runs of one length (imath.c:2378). */
  method CDig(da: array<digit>, ao: nat, db: array<digit>, bo: nat, size: nat) returns (r: int)
    requires ao + size <= da.Length && bo + size <= db.Length
    ensures -1 <= r <= 1
    ensures r < 0 <==> Val(Run(da, ao, size)) < Val(Run(db, bo, size))
    ensures r > 0 <==> Val(Run(da, ao, size)) > Val(Run(db, bo, size))
  {
    hide Val, Run;
    ghost var a, b := Run(da, ao, size), Run(db, bo, size);
    var len := size;
    while len != 0
      invariant 0 <= len <= size
      invariant a[len..] == b[len..]
    {
      if da[ao + len - 1] > db[bo + len - 1] {
        ValLess(b, a, len - 1);
        return 1;
      } else if da[ao + len - 1] < db[bo + len - 1] {
        ValLess(a, b, len - 1);
        return -1;
      }
      len := len - 1;
      SuffixEq(a, b, len);
    }
    assert a == a[0..] && b == b[0..];
    return 0;
  }

  lemma SuffixEq(a: seq<digit>, b: seq<digit>, n: nat)
    requires n < |a| == |b|
    requires a[n] == b[n] && a[n + 1..] == b[n + 1..]
    ensures a[n..] == b[n..]
  {
    assert a[n..] == [a[n]] + a[n + 1..];
    assert b[n..] == [b[n]] + b[n + 1..];
  }

  /** No leading zero digit, except for the one digit of zero: what CLAMP leaves. */
  predicate Canonical(s: seq<digit>) {
    |s| == 1 || (|s| > 1 && s[|s| - 1] != 0)
  }

  lemma OneDigit(s: seq<digit>)
    requires |s| == 1
    ensures Canonical(s) && Val(s) == s[0]
  {
    ValOne(s);
  }

  lemma CanonicalLonger(s: seq<digit>, t: seq<digit>)
    requires Canonical(s) && |t| < |s|
    ensures Val(t) < Val(s) || |t| == 0
  {
    if |t| > 0 {
      ValTop(s);
      AtMono(1, s[|s| - 1], |s| - 1);
      ValBound(t);
      PowMono(|t|, |s| - 1);
    }
  }

  /** Comparing canonical magnitudes by length first (imath.c:2424). */
  method UCmp(da: array<digit>, ao: nat, sizeA: nat, db: array<digit>, bo: nat, sizeB: nat) returns (r: int)
    requires ao + sizeA <= da.Length && bo + sizeB <= db.Length
    requires Canonical(Run(da, ao, sizeA)) && Canonical(Run(db, bo, sizeB))
    ensures -1 <= r <= 1
    ensures r < 0 <==> Val(Run(da, ao, sizeA)) < Val(Run(db, bo, sizeB))
    ensures r > 0 <==> Val(Run(da, ao, sizeA)) > Val(Run(db, bo, sizeB))
  {
    hide Val, Run;
    if sizeA > sizeB {
      CanonicalLonger(Run(da, ao, sizeA), Run(db, bo, sizeB));
      return 1;
    } else if sizeB > sizeA {
      CanonicalLonger(Run(db, bo, sizeB), Run(da, ao, sizeA));
      return -1;
    }
    r := CDig(da, ao, db, bo, sizeA);
  }

  // ---- s_umul ----

  /** One row of s_umul: d times b is added onto the digits at dc[co], the carry out
      stored in the still empty digit above them. */
  method MulRow(d: digit, db: array<digit>, bo: nat, dc: array<digit>, co: nat, sizeB: nat)
    requires bo + sizeB <= db.Length && co + sizeB < dc.Length && dc != db
    requires dc[co + sizeB] == 0
    modifies dc
    ensures Val(Run(dc, co, sizeB + 1)) == old(Val(Run(dc, co, sizeB + 1))) + d * Val(Run(db, bo, sizeB))
    ensures OnlyRun(dc, co, sizeB + 1)
  {
    hide Val, At, Lower, Upper, Run;
    Empty();
    ghost var b, c := Run(db, bo, sizeB), Run(dc, co, sizeB);
    SnocVal(c, Run(dc, co, sizeB + 1), 0);
    var j, w: word := 0, 0;
    while j < sizeB
      invariant j <= sizeB && w < RADIX
      invariant Val(Run(dc, co, j)) + At(w, j) == Val(c[..j]) + d * Val(b[..j])
      invariant OnlyRun(dc, co, j)
    {
      ghost var c', k := Run(dc, co, j), w;
      MulFits(d, db[bo + j], w, dc[co + j]);
      w := d * db[bo + j] + w + dc[co + j];
      dc[co + j] := Lower(w);
      MulStep(c', Run(dc, co, j + 1), d, b, c, k, w);
      w := Upper(w);
      j := j + 1;
    }
    assert b[..j] == b && c[..j] == c;
    ghost var c' := Run(dc, co, sizeB);
    dc[co + sizeB] := w;
    SnocVal(c', Run(dc, co, sizeB + 1), w);
    AtZero(sizeB);
  }

  lemma AtZero(n: nat)
    ensures At(0, n) == 0
  {
  }

  lemma MulFits(x: digit, y: digit, k: digit, z: digit)
    ensures 0 <= x * y + k + z < WORD
    ensures Upper(x * y + k + z) < RADIX
  {
    MulMono(x, RADIX - 1, y);
    MulMono(y, RADIX - 1, RADIX - 1);
    assert x * y + k + z < RADIX * RADIX;
  }

  lemma MulStep(c': seq<digit>, c'': seq<digit>, d: digit, b: seq<digit>, c: seq<digit>, k: nat, w: nat)
    requires |c'| < |b| == |c| && w == d * b[|c'|] + k + c[|c'|]
    requires c'' == c' + [Lower(w)]
    requires Val(c') + At(k, |c'|) == Val(c[..|c'|]) + d * Val(b[..|c'|])
    ensures Val(c'') + At(Upper(w), |c'| + 1) == Val(c[..|c'| + 1]) + d * Val(b[..|c'| + 1])
  {
    hide *;
    var n := |c'|;
    TakeSnoc(b, n);
    TakeSnoc(c, n);
    SnocVal(c', c'', Lower(w));
    var x, y := b[n], c[n];
    MulMath(Val(c'), Val(c''), k, d, x, y, w, Val(c[..n]), Val(c[..n + 1]), Val(b[..n]), Val(b[..n + 1]), n);
  }

  lemma MulMath(v: int, v': int, k: int, d: int, x: int, y: int, w: nat,
                vc: int, vc': int, vb: int, vb': int, n: nat)
    requires w == d * x + k + y
    requires v + At(k, n) == vc + d * vb
    requires v' == v + At(Lower(w), n) && vc' == vc + At(y, n) && vb' == vb + At(x, n)
    ensures v' + At(Upper(w), n + 1) == vc' + d * vb'
  {
    hide *;
    AddMath(v, k, d * x, y, w, vc + d * vb, n);
    AtScale(d, x, n);
    MulDist2(d, vb, At(x, n));
  }

  lemma MulDist2(d: int, x: int, y: int)
    ensures d * (x + y) == d * x + d * y
    ensures d * (x - y) == d * x - d * y
  {
  }

  /** Schoolbook product into zeroed digits (imath.c:2641). */
  method UMul(da: array<digit>, ao: nat, db: array<digit>, bo: nat, dc: array<digit>, co: nat,
              sizeA: nat, sizeB: nat)
    requires ao + sizeA <= da.Length && bo + sizeB <= db.Length && co + sizeA + sizeB <= dc.Length
    requires dc != da && dc != db
    requires forall k :: co <= k < co + sizeA + sizeB ==> dc[k] == 0
    modifies dc
    ensures Val(Run(dc, co, sizeA + sizeB)) == Val(Run(da, ao, sizeA)) * Val(Run(db, bo, sizeB))
    ensures OnlyRun(dc, co, sizeA + sizeB)
  {
    hide Val, At, Run;
    ghost var a, b, n := Run(da, ao, sizeA), Run(db, bo, sizeB), sizeA + sizeB;
    ValZeros(Run(dc, co, n));
    Empty();
    var i := 0;
    while i < sizeA
      invariant i <= sizeA
      invariant Val(Run(dc, co, n)) == Val(a[..i]) * Val(b)
      invariant OnlyRun(dc, co, n)
      invariant forall k :: co + i + sizeB <= k < co + n ==> dc[k] == 0
    {
      ghost var c := Run(dc, co, n);
      if da[ao + i] != 0 {
        ghost var m := Run(dc, co + i, sizeB + 1);
        MulRow(da[ao + i], db, bo, dc, co + i, sizeB);
        assert c[i..i + sizeB + 1] == m;
        assert Run(dc, co, n)[i..i + sizeB + 1] == Run(dc, co + i, sizeB + 1);
      }
      RowStep(c, Run(dc, co, n), a, b, i);
      i := i + 1;
    }
    assert a[..i] == a;
  }

  lemma RowStep(c: seq<digit>, c': seq<digit>, a: seq<digit>, b: seq<digit>, i: nat)
    requires i < |a| && |c| == |c'| == |a| + |b|
    requires c'[..i] == c[..i] && c'[i + |b| + 1..] == c[i + |b| + 1..]
    requires Val(c'[i..i + |b| + 1]) == Val(c[i..i + |b| + 1]) + a[i] * Val(b)
    requires Val(c) == Val(a[..i]) * Val(b)
    ensures Val(c') == Val(a[..i + 1]) * Val(b)
  {
    hide *;
    var d := a[i];
    Splice(c, c', i, i + |b| + 1, d * Val(b));
    TakeSnoc(a, i);
    RowMath(d, Val(a[..i]), Val(a[..i + 1]), Val(b), d * Val(b), i);
  }

  lemma RowMath(d: int, va: int, va': int, vb: int, x: int, i: nat)
    requires va' == va + At(d, i) && x == d * vb
    ensures va * vb + Pow(i) * x == va' * vb
  {
    MulDist(va, At(d, i), vb);
    MulAssoc(Pow(i), d, vb);
    MulComm(Pow(i), d);
  }
}
