/** s_kmul and s_ksqr (imath.c:2539, imath.c:2673): recursive multiplication and squaring.

    Both need more room in dc than the product fills, and both leave the digits above the
    product as they found them.  The three temporaries, slices of one allocation in the
    source, are arrays of their own here.
 */
module Karatsuba {
  import opened Digits
  import opened DigitLoops
  import opened Squaring

  function Half(n: nat): nat {
    (n + 1) / 2
  }

  /** The test at imath.c:2563, for sizeA >= sizeB. */
  predicate Splits(threshold: nat, sizeA: nat, sizeB: nat) {
    threshold != 0 && sizeA >= threshold && sizeB > Half(sizeA)
  }

  /** Digits of dc that s_kmul touches: more than the product has when it splits. */
  function Room(threshold: nat, sizeA: nat, sizeB: nat): nat
    decreases sizeB > sizeA
  {
    if sizeB > sizeA then Room(threshold, sizeB, sizeA)
    else if Splits(threshold, sizeA, sizeB) then 4 * Half(sizeA)
    else sizeA + sizeB
  }

  // ---- Which calls end ----

  /** s_kmul on operands of these sizes ends with a call depth of at most n: the recursive calls
      are the inner product, the product of the low halves and that of the high halves. */
  ghost predicate Ends(threshold: nat, sizeA: nat, sizeB: nat, n: nat) {
    var (p, q) := if sizeB > sizeA then (sizeB, sizeA) else (sizeA, sizeB);
    !Splits(threshold, p, q) ||
    (n > 0
     && Ends(threshold, Half(p) + 1, Half(p) + 1, n - 1)
     && Ends(threshold, Half(p), Half(p), n - 1)
     && Ends(threshold, p - Half(p), q - Half(p), n - 1))
  }

  /** Some depth is enough for the call. */
  ghost predicate Terminates(threshold: nat, sizeA: nat, sizeB: nat) {
    exists n: nat :: EndsWithin(threshold, sizeA, sizeB, n)
  }

  ghost predicate EndsWithin(threshold: nat, sizeA: nat, sizeB: nat, n: nat) {
    Ends(threshold, sizeA, sizeB, n)
  }

  /** What a caller can check beforehand. */
  predicate EndsFor(threshold: nat, sizeA: nat, sizeB: nat) {
    || threshold == 0 || threshold >= 4
    || !(if sizeB > sizeA then Splits(threshold, sizeB, sizeA) else Splits(threshold, sizeA, sizeB))
  }

  /** The inner product is smaller than the call exactly from size 4 on. */
  lemma SplitShrinks(size: nat)
    ensures Half(size) + 1 < size <==> size >= 4
  {
  }

  lemma {:induction false} LargeThresholdEnds(threshold: nat, sizeA: nat, sizeB: nat, n: nat)
    requires (threshold == 0 || threshold >= 4) && sizeA <= n && sizeB <= n
    ensures Ends(threshold, sizeA, sizeB, n)
    decreases n
  {
    var (p, q) := if sizeB > sizeA then (sizeB, sizeA) else (sizeA, sizeB);
    if Splits(threshold, p, q) {
      SplitShrinks(p);
      var h := Half(p);
      LargeThresholdEnds(threshold, h + 1, h + 1, n - 1);
      LargeThresholdEnds(threshold, h, h, n - 1);
      LargeThresholdEnds(threshold, p - h, q - h, n - 1);
    }
  }

  /** With a threshold of 1, 2 or 3 the inner product of a call that splits splits again. */
  lemma {:induction false} SmallThresholdRuns(threshold: nat, size: nat, sizeB: nat, n: nat)
    requires 1 <= threshold <= 3 && sizeB <= size && Splits(threshold, size, sizeB)
    ensures !Ends(threshold, size, sizeB, n)
    decreases n
  {
    if n > 0 {
      SmallThresholdRuns(threshold, Half(size) + 1, Half(size) + 1, n - 1);
    }
  }

  /** s_kmul ends on exactly the sizes that EndsFor describes. */
  lemma EndsExactly(threshold: nat, sizeA: nat, sizeB: nat)
    ensures Terminates(threshold, sizeA, sizeB) <==> EndsFor(threshold, sizeA, sizeB)
  {
    hide Ends, Splits;
    var (p, q) := if sizeB > sizeA then (sizeB, sizeA) else (sizeA, sizeB);
    if threshold == 0 || threshold >= 4 {
      LargeThresholdEnds(threshold, sizeA, sizeB, p);
      assert EndsWithin(threshold, sizeA, sizeB, p);
    } else if Splits(threshold, p, q) {
      forall n: nat
        ensures !EndsWithin(threshold, sizeA, sizeB, n)
      {
        SmallThresholdRuns(threshold, p, q, n);
        SameEnds(threshold, p, q, n);
      }
    } else {
      UnsplitEnds(threshold, p, q);
      SameEnds(threshold, p, q, 0);
      assert EndsWithin(threshold, sizeA, sizeB, 0);
    }
  }

  lemma UnsplitEnds(threshold: nat, sizeA: nat, sizeB: nat)
    requires sizeB <= sizeA && !Splits(threshold, sizeA, sizeB)
    ensures Ends(threshold, sizeA, sizeB, 0)
  {
  }

  lemma SameEnds(threshold: nat, sizeA: nat, sizeB: nat, n: nat)
    requires sizeA >= sizeB
    ensures Ends(threshold, sizeB, sizeA, n) <==> Ends(threshold, sizeA, sizeB, n)
  {
  }

  // ---- How much room a call needs ----

  /** The room of s_kmul is what both operands have together exactly if it does not split or
      they have the same even size. */
  lemma RoomExact(threshold: nat, sizeA: nat, sizeB: nat)
    ensures Room(threshold, sizeA, sizeB) >= sizeA + sizeB
    ensures Room(threshold, sizeA, sizeB) == sizeA + sizeB <==>
            (sizeA == sizeB && sizeA % 2 == 0)
            || !(if sizeB > sizeA then Splits(threshold, sizeB, sizeA) else Splits(threshold, sizeA, sizeB))
  {
  }

  /** Two operands of 33 digits need 68 at the threshold the library starts with. */
  lemma RoomOfThirtyThree()
    ensures Room(32, 33, 33) == 68 && 33 + 33 == 66
  {
  }

  // ---- Putting the three parts together ----

  /** The last three statements of both routines: dc = t1 + t3 * B^bot + t2 * B^(2 bot).
      Neither addition carries out, and the digits of dc from n up are not disturbed. */
  method Assemble(t1: array<digit>, t2: array<digit>, t3: array<digit>, dc: array<digit>, co: nat,
                  bot: nat, n: nat)
    requires 0 < bot && 3 * bot <= n <= 4 * bot
    requires 2 * bot <= t1.Length && 2 * bot <= t2.Length && 2 * bot < t3.Length
    requires co + 4 * bot <= dc.Length && dc != t1 && dc != t2 && dc != t3
    requires forall k :: co + 2 * bot <= k < co + n ==> dc[k] == 0
    requires Val(Run(t3, 0, 2 * bot + 1)) < 2 * Pow(2 * bot)
    requires Joined(Val(Run(t1, 0, 2 * bot)), Val(Run(t3, 0, 2 * bot + 1)), Val(Run(t2, 0, 2 * bot)), bot) < Pow(n)
    modifies dc
    ensures Val(Run(dc, co, n))
         == old(Joined(Val(Run(t1, 0, 2 * bot)), Val(Run(t3, 0, 2 * bot + 1)), Val(Run(t2, 0, 2 * bot)), bot))
    ensures OnlyRun(dc, co, n)
  {
    hide Val, At, Run, Pow, Joined;
    ghost var v1, v2, v3 := Run(t1, 0, 2 * bot), Run(t2, 0, 2 * bot), Run(t3, 0, 2 * bot + 1);
    ghost var s0 := Run(dc, co, 4 * bot);
    forall k | 0 <= k < 2 * bot {
      dc[co + k] := t1[k];
    }
    label Copied:
    ghost var s1 := Run(dc, co, 4 * bot);
    var carry := UAdd(t3, 0, dc, co + bot, dc, co + bot, 2 * bot + 1, 2 * bot + 1);
    ghost var s2 := Run(dc, co, 4 * bot);
    assert Val(s2) == Joined(Val(v1), Val(v3), 0, bot) + Pow(n) * Val(s0[n..]) by {
      assert s1[bot..3 * bot + 1] == old@Copied(Run(dc, co + bot, 2 * bot + 1));
      assert s2[bot..3 * bot + 1] == Run(dc, co + bot, 2 * bot + 1);
      CopyVal(v1, s0, s1, bot, n);
      FirstSumFits(v1, v3, s0, s1, bot, n, Val(v2));
      CarryZero(Val(v3) + Val(s1[bot..3 * bot + 1]), Val(s2[bot..3 * bot + 1]), carry, 2 * bot + 1);
      FirstSum(v1, v3, s0, s1, s2, bot, n);
    }
    label Added:
    carry := UAdd(t2, 0, dc, co + 2 * bot, dc, co + 2 * bot, 2 * bot, 2 * bot);
    ghost var s3 := Run(dc, co, 4 * bot);
    assert s2[2 * bot..] == old@Added(Run(dc, co + 2 * bot, 2 * bot));
    assert s3[2 * bot..] == Run(dc, co + 2 * bot, 2 * bot);
    JoinedTop(Val(v1), Val(v3), Val(v2), bot);
    SecondSum(s0, s2, s3, carry, bot, n, Joined(Val(v1), Val(v3), 0, bot), Val(v2));
    assert s3[..n] == Run(dc, co, n);
    forall k | co + n <= k < co + 4 * bot
      ensures dc[k] == old(dc[k])
    {
      assert s3[k - co] == s3[n..][k - co - n] == s0[n..][k - co - n] == s0[k - co];
    }
  }

  ghost function Joined(v1: nat, v3: nat, v2: nat, bot: nat): nat {
    v1 + Pow(bot) * v3 + Pow(2 * bot) * v2
  }

  lemma JoinedTop(v1: nat, v3: nat, v2: nat, bot: nat)
    ensures Joined(v1, v3, v2, bot) == Joined(v1, v3, 0, bot) + Pow(2 * bot) * v2
  {
  }

  /** The value after the copy and the first addition, whatever lies above digit n. */
  lemma FirstSum(v1: seq<digit>, v3: seq<digit>, s0: seq<digit>, s1: seq<digit>, s2: seq<digit>, bot: nat, n: nat)
    requires 2 * bot <= n <= 4 * bot && 3 * bot + 1 <= 4 * bot
    requires |s0| == |s1| == |s2| == 4 * bot
    requires Val(s1) == Val(v1) + Pow(n) * Val(s0[n..])
    requires s2[..bot] == s1[..bot] && s2[3 * bot + 1..] == s1[3 * bot + 1..]
    requires Val(s2[bot..3 * bot + 1]) == Val(s1[bot..3 * bot + 1]) + Val(v3)
    ensures Val(s2) == Joined(Val(v1), Val(v3), 0, bot) + Pow(n) * Val(s0[n..])
  {
    hide *;
    Splice(s1, s2, bot, 3 * bot + 1, Val(v3));
    JoinedLow(Val(v1), Val(v3), bot);
  }

  lemma JoinedLow(v1: nat, v3: nat, bot: nat)
    ensures Joined(v1, v3, 0, bot) == v1 + Pow(bot) * v3
  {
  }

  lemma CopyVal(v1: seq<digit>, s0: seq<digit>, s1: seq<digit>, bot: nat, n: nat)
    requires 2 * bot <= n <= 4 * bot
    requires |v1| == 2 * bot && |s0| == |s1| == 4 * bot
    requires s1[..2 * bot] == v1 && s1[2 * bot..] == s0[2 * bot..]
    requires forall k :: 2 * bot <= k < n ==> s0[k] == 0
    ensures Val(s1) == Val(v1) + Pow(n) * Val(s0[n..])
    ensures Val(s1[..n]) == Val(v1)
  {
    hide *;
    ValSplit(s1, n);
    assert s1[n..] == s0[n..] by {
      assert s1[n..] == s1[2 * bot..][n - 2 * bot..];
      assert s0[n..] == s0[2 * bot..][n - 2 * bot..];
    }
    assert forall k :: 2 * bot <= k < n ==> s1[k] == s1[2 * bot..][k - 2 * bot] == s0[2 * bot..][k - 2 * bot] == 0;
    ValClamp(s1[..n], 2 * bot);
    assert s1[..n][..2 * bot] == v1;
  }

  lemma FirstSumFits(v1: seq<digit>, v3: seq<digit>, s0: seq<digit>, s1: seq<digit>, bot: nat, n: nat, x2: nat)
    requires 0 < bot && 3 * bot <= n <= 4 * bot
    requires |v1| == 2 * bot && |s0| == |s1| == 4 * bot
    requires s1[2 * bot..] == s0[2 * bot..]
    requires forall k :: 2 * bot <= k < n ==> s0[k] == 0
    requires Val(v3) < 2 * Pow(2 * bot)
    requires Joined(Val(v1), Val(v3), x2, bot) < Pow(n)
    requires Val(s1[..n]) == Val(v1)
    ensures Val(v3) + Val(s1[bot..3 * bot + 1]) < Pow(2 * bot + 1)
  {
    hide *;
    var w, k := s1[bot..3 * bot + 1], 2 * bot;
    ValSnoc(w, k);
    if n == 3 * bot {
      LowSumFits(v1, v3, s1, bot, x2);
      BelowPow(Val(v3) + Val(w[..k]), w[k], k);
    } else {
      assert w[k] == 0 by {
        assert w[k] == s1[3 * bot] == s1[k..][bot] == s0[k..][bot];
      }
      ValBound(w[..k]);
      AtZero(k);
      BelowPow3(Val(v3), Val(w[..k]), k);
    }
  }

  lemma CarryZero(x: nat, y: nat, carry: nat, k: nat)
    requires y + At(carry, k) == x < Pow(k)
    ensures carry == 0 && y == x
  {
    if carry > 0 {
      AtMono(1, carry, k);
    }
  }

  lemma BelowPow(x: nat, d: digit, k: nat)
    requires x < Pow(k)
    ensures x + At(d, k) < Pow(k + 1)
  {
    MulMono(d as int + 1, RADIX, Pow(k));
    MulDist(d, 1, Pow(k));
  }

  lemma BelowPow3(x: nat, y: nat, k: nat)
    requires x < 2 * Pow(k) && y < Pow(k)
    ensures x + y < Pow(k + 1)
  {
  }

  /** With n = 3 bot, what is added below the top digit stays below B^(2 bot). */
  lemma LowSumFits(v1: seq<digit>, v3: seq<digit>, s1: seq<digit>, bot: nat, x2: nat)
    requires 0 < bot && |v1| == 2 * bot && |s1| == 4 * bot
    requires Joined(Val(v1), Val(v3), x2, bot) < Pow(3 * bot)
    requires Val(s1[..3 * bot]) == Val(v1)
    ensures Val(v3) + Val(s1[bot..3 * bot + 1][..2 * bot]) < Pow(2 * bot)
  {
    assert Joined(Val(v1), Val(v3), x2, bot) >= Val(v1) + Pow(bot) * Val(v3) by {
      MulMono(0, x2, Pow(2 * bot));
    }
    hide *;
    ValSplit(s1[..3 * bot], bot);
    assert s1[..3 * bot][bot..] == s1[bot..3 * bot + 1][..2 * bot];
    PowAdd(bot, 2 * bot);
    FitsMath(Pow(bot), Pow(2 * bot), Val(s1[..3 * bot][..bot]), Val(s1[..3 * bot][bot..]), Val(v3));
  }

  /** The second addition completes the product and cannot carry into what lies above. */
  lemma SecondSum(s0: seq<digit>, s2: seq<digit>, s3: seq<digit>, carry: nat, bot: nat, n: nat, v: nat, x2: nat)
    requires 0 < bot && 3 * bot <= n <= 4 * bot && carry <= 1
    requires |s0| == |s2| == |s3| == 4 * bot
    requires s3[..2 * bot] == s2[..2 * bot]
    requires Val(s3[2 * bot..]) + At(carry, 2 * bot) == x2 + Val(s2[2 * bot..])
    requires Val(s2) == v + Pow(n) * Val(s0[n..])
    requires v + Pow(2 * bot) * x2 < Pow(n)
    ensures Val(s3[..n]) == v + Pow(2 * bot) * x2
    ensures s3[n..] == s0[n..]
  {
    hide *;
    var g := Val(s0[n..]);
    ValSplit(s2, 2 * bot);
    ValSplit(s3, 2 * bot);
    PowAdd(2 * bot, 2 * bot);
    PowAdd(n, 4 * bot - n);
    ValBound(s0[n..]);
    AtDef(carry, 2 * bot);
    SecondMath(Pow(2 * bot), Pow(n), Pow(4 * bot - n), Pow(4 * bot), carry, x2, v, g,
               Val(s2[..2 * bot]), Val(s2[2 * bot..]), Val(s3[2 * bot..]), Val(s2), Val(s3));
    ValSplit(s3, n);
    ValBound(s3[..n]);
    SplitUnique(Val(s3[..n]), Val(s3[n..]), v + Pow(2 * bot) * x2, g, Pow(n));
    ValInjective(s3[n..], s0[n..]);
  }

  lemma SecondMath(p: nat, pn: nat, pr: nat, pp: nat, carry: nat, x2: nat, v: nat, g: nat,
                   lo: nat, hi2: nat, hi3: nat, v2: nat, v3: nat)
    requires pp == p * p && pp == pn * pr && g < pr && carry <= 1
    requires v2 == lo + p * hi2 && v3 == lo + p * hi3 && v2 == v + pn * g
    requires hi3 + carry * p == x2 + hi2 && v + p * x2 < pn
    ensures v3 == v + p * x2 + pn * g
  {
    assert p * hi3 + p * (carry * p) == p * x2 + p * hi2 by {
      MulDist2(p, hi3, carry * p);
      MulDist2(p, x2, hi2);
    }
    assert pn * g + pn <= pp by {
      MulMono(g + 1, pr, pn);
      MulDist(g, 1, pn);
      MulComm(pn, pr);
      MulComm(pn, g);
    }
    CarrySquare(p, carry);
  }

  lemma CarrySquare(p: nat, carry: nat)
    requires carry <= 1
    ensures p * (carry * p) == if carry == 1 then p * p else 0
  {
  }

  // ---- s_kmul ----

  lemma HalfFacts(n: nat)
    requires n >= 4
    ensures 2 <= Half(n) && Half(n) + 1 < n && n <= 2 * Half(n) && 2 * Half(n) <= n + 1
    ensures 4 * Half(Half(n) + 1) <= 4 * Half(n)
    ensures 4 * Half(Half(n)) <= 2 * Half(n) + 2
  {
  }

  lemma RoomBound(threshold: nat, a: nat, b: nat, m: nat)
    requires a <= m && b <= m
    ensures Room(threshold, a, b) <= 4 * Half(m)
    decreases b > a
  {
    if b > a {
      RoomBound(threshold, b, a, m);
    }
  }

  /** Unsigned recursive multiplication into zeroed digits (imath.c:2539). */
  method KMul(threshold: nat, da: array<digit>, ao: nat, db: array<digit>, bo: nat, dc: array<digit>, co: nat,
              sizeA: nat, sizeB: nat)
    requires EndsFor(threshold, sizeA, sizeB)
    requires ao + sizeA <= da.Length && bo + sizeB <= db.Length
    requires co + sizeA + sizeB <= dc.Length && co + Room(threshold, sizeA, sizeB) <= dc.Length
    requires dc != da && dc != db
    requires forall k :: co <= k < co + sizeA + sizeB ==> dc[k] == 0
    modifies dc
    ensures Val(Run(dc, co, sizeA + sizeB)) == Val(Run(da, ao, sizeA)) * Val(Run(db, bo, sizeB))
    ensures OnlyRun(dc, co, sizeA + sizeB)
    decreases if sizeA < sizeB then sizeB else sizeA, if sizeA < sizeB then 3 else 2
  {
    hide Val, Run;
    if sizeB > sizeA {
      MulComm(Val(Run(da, ao, sizeA)), Val(Run(db, bo, sizeB)));
      KMul(threshold, db, bo, da, ao, dc, co, sizeB, sizeA);
    } else if Splits(threshold, sizeA, sizeB) {
      KSplit(threshold, da, ao, db, bo, dc, co, sizeA, sizeB);
    } else {
      UMul(da, ao, db, bo, dc, co, sizeA, sizeB);
    }
  }

  /** The recursive branch of s_kmul. */
  method KSplit(threshold: nat, da: array<digit>, ao: nat, db: array<digit>, bo: nat, dc: array<digit>, co: nat,
                sizeA: nat, sizeB: nat)
    requires threshold >= 4 && sizeB <= sizeA && Splits(threshold, sizeA, sizeB)
    requires ao + sizeA <= da.Length && bo + sizeB <= db.Length
    requires co + 4 * Half(sizeA) <= dc.Length
    requires dc != da && dc != db
    requires forall k :: co <= k < co + sizeA + sizeB ==> dc[k] == 0
    modifies dc
    ensures Val(Run(dc, co, sizeA + sizeB)) == Val(Run(da, ao, sizeA)) * Val(Run(db, bo, sizeB))
    ensures OnlyRun(dc, co, sizeA + sizeB)
    decreases sizeA, 1
  {
    hide Val, Run, At, Pow, Joined, Room, Half;
    HalfFacts(sizeA);
    var bot := Half(sizeA);
    var t1 := new digit[2 * bot + 2](_ => 0);
    var t2 := new digit[2 * bot + 2](_ => 0);
    var t3 := new digit[4 * bot](_ => 0);
    ghost var a0, a1 := Run(da, ao, bot), Run(da, ao + bot, sizeA - bot);
    ghost var b0, b1 := Run(db, bo, bot), Run(db, bo + bot, sizeB - bot);
    SplitVal(da, ao, sizeA, bot);
    SplitVal(db, bo, sizeB, bot);
    InnerProduct(threshold, da, ao, db, bo, t1, t2, t3, sizeA, sizeB, bot);
    OuterProducts(threshold, da, ao, db, bo, t1, t2, sizeA, sizeB, bot);
    MiddlePart(t1, t2, t3, bot, a0, a1, b0, b1);
    ProductJoined(Val(a0), Val(a1), Val(b0), Val(b1), bot);
    ProductFits(Run(da, ao, sizeA), Run(db, bo, sizeB));
    Assemble(t1, t2, t3, dc, co, bot, sizeA + sizeB);
  }

  /** t3 := t3 - t1 - t2: neither subtraction borrows, and the top digit it leaves is zero. */
  method MiddlePart(t1: array<digit>, t2: array<digit>, t3: array<digit>, bot: nat,
                    ghost a0: seq<digit>, ghost a1: seq<digit>, ghost b0: seq<digit>, ghost b1: seq<digit>)
    requires |a0| == |b0| == bot && |a1| <= bot && |b1| <= bot
    requires 2 * bot <= t1.Length && 2 * bot <= t2.Length && 2 * bot + 2 <= t3.Length && t3 != t1 && t3 != t2
    requires Val(Run(t1, 0, 2 * bot)) == Val(a0) * Val(b0)
    requires Val(Run(t2, 0, 2 * bot)) == Val(a1) * Val(b1)
    requires Val(Run(t3, 0, 2 * bot + 2)) == (Val(a0) + Val(a1)) * (Val(b0) + Val(b1))
    modifies t3
    ensures Val(Run(t3, 0, 2 * bot + 1)) == Val(a0) * Val(b1) + Val(a1) * Val(b0) < 2 * Pow(2 * bot)
  {
    hide Val, Run, Pow;
    MiddleMath(Val(a0), Val(a1), Val(b0), Val(b1));
    USub(t3, 0, t1, 0, t3, 0, 2 * bot + 2, 2 * bot);
    USub(t3, 0, t2, 0, t3, 0, 2 * bot + 2, 2 * bot);
    MiddleFits(a0, a1, b0, b1, bot);
    assert Run(t3, 0, 2 * bot + 2)[..2 * bot + 1] == Run(t3, 0, 2 * bot + 1);
    TopDigitZero(Run(t3, 0, 2 * bot + 2), 2 * bot + 1);
  }

  lemma MiddleMath(a0: nat, a1: nat, b0: nat, b1: nat)
    ensures (a0 + a1) * (b0 + b1) == a0 * b0 + a1 * b1 + (a0 * b1 + a1 * b0)
    ensures a0 * b0 >= 0 && a1 * b1 >= 0 && a0 * b1 >= 0 && a1 * b0 >= 0
  {
    MulDist(a0, a1, b0 + b1);
    MulDist2(a0, b0, b1);
    MulDist2(a1, b0, b1);
  }

  lemma MiddleFits(a0: seq<digit>, a1: seq<digit>, b0: seq<digit>, b1: seq<digit>, bot: nat)
    requires |a0| == |b0| == bot && |a1| <= bot && |b1| <= bot
    ensures Val(a0) * Val(b1) + Val(a1) * Val(b0) < 2 * Pow(2 * bot)
  {
    hide *;
    ProductFits(a0, b1);
    ProductFits(a1, b0);
    PowMono(|a0| + |b1|, 2 * bot);
    PowMono(|a1| + |b0|, 2 * bot);
  }

  lemma TopDigitZero(s: seq<digit>, n: nat)
    requires |s| == n + 1 && n > 0
    requires Val(s) < 2 * Pow(n - 1)
    ensures Val(s[..n]) == Val(s)
  {
    ValSnoc(s, n);
    assert Pow(n) == RADIX * Pow(n - 1);
    AtDef(1, n);
    if s[n] > 0 {
      AtMono(1, s[n], n);
    }
    AtZero(n);
  }

  lemma SplitVal(a: array<digit>, o: nat, n: nat, bot: nat)
    requires o + n <= a.Length && bot <= n
    ensures Val(Run(a, o, n)) == Val(Run(a, o, bot)) + Pow(bot) * Val(Run(a, o + bot, n - bot))
  {
    hide Val, Pow;
    ValSplit(Run(a, o, n), bot);
    assert Run(a, o, n)[..bot] == Run(a, o, bot);
    assert Run(a, o, n)[bot..] == Run(a, o + bot, n - bot);
  }

  lemma ProductFits(a: seq<digit>, b: seq<digit>)
    ensures Val(a) * Val(b) < Pow(|a| + |b|)
  {
    ValBound(a);
    ValBound(b);
    PowAdd(|a|, |b|);
    MulMono(Val(a), Pow(|a|), Val(b));
    MulMono(Val(b) + 1, Pow(|b|), Pow(|a|));
    MulDist(Val(b), 1, Pow(|a|));
    MulComm(Pow(|a|), Val(b));
  }

  /** (a0 + a1 B^n)(b0 + b1 B^n) from the three products. */
  lemma ProductJoined(a0: nat, a1: nat, b0: nat, b1: nat, n: nat)
    ensures Joined(a0 * b0, a0 * b1 + a1 * b0, a1 * b1, n) == (a0 + Pow(n) * a1) * (b0 + Pow(n) * b1)
  {
    PowAdd(n, n);
    JoinMath(a0, a1, b0, b1, Pow(n), Pow(2 * n));
  }

  lemma JoinMath(a0: int, a1: int, b0: int, b1: int, p: int, p2: int)
    requires p2 == p * p
    ensures a0 * b0 + p * (a0 * b1 + a1 * b0) + p2 * (a1 * b1) == (a0 + p * a1) * (b0 + p * b1)
  {
    var u, v := p * a1, p * b1;
    MulDist(a0, u, b0 + v);
    MulDist2(a0, b0, v);
    MulDist2(u, b0, v);
    assert a0 * v == p * (a0 * b1);
    assert u * b0 == p * (a1 * b0);
    assert u * v == p2 * (a1 * b1) by {
      MulAssoc(u, p, b1);
      assert u * p == p2 * a1;
      MulAssoc(p2, a1, b1);
    }
    MulDist2(p, a0 * b1, a1 * b0);
  }

  /** t3 := (a0 + a1) * (b0 + b1), with t1 and t2 holding the sums, then cleared. */
  method InnerProduct(threshold: nat, da: array<digit>, ao: nat, db: array<digit>, bo: nat,
                      t1: array<digit>, t2: array<digit>, t3: array<digit>, sizeA: nat, sizeB: nat, bot: nat)
    requires threshold >= 4 && 4 <= sizeA && bot < sizeB <= sizeA && bot == Half(sizeA)
    requires ao + sizeA <= da.Length && bo + sizeB <= db.Length
    requires t1.Length == t2.Length == 2 * bot + 2 && t3.Length == 4 * bot
    requires t1 != t2 && t1 != t3 && t2 != t3 && da != t1 && da != t2 && da != t3 && db != t1 && db != t2 && db != t3
    requires forall k :: 0 <= k < t1.Length ==> t1[k] == 0
    requires forall k :: 0 <= k < t2.Length ==> t2[k] == 0
    requires forall k :: 0 <= k < t3.Length ==> t3[k] == 0
    modifies t1, t2, t3
    ensures forall k :: 0 <= k < t1.Length ==> t1[k] == 0
    ensures forall k :: 0 <= k < t2.Length ==> t2[k] == 0
    ensures Val(Run(t3, 0, 2 * bot + 2))
         == (Val(Run(da, ao, bot)) + Val(Run(da, ao + bot, sizeA - bot)))
          * (Val(Run(db, bo, bot)) + Val(Run(db, bo + bot, sizeB - bot)))
    decreases sizeA, 0
  {
    hide Val, Run, At, Pow, Room, Half, Splits;
    HalfFacts(sizeA);
    RoomBound(threshold, bot + 1, bot + 1, bot + 1);
    var carry := UAdd(da, ao, da, ao + bot, t1, 0, bot, sizeA - bot);
    ghost var c := Run(t1, 0, bot);
    t1[bot] := carry;
    SnocVal(c, Run(t1, 0, bot + 1), carry);
    carry := UAdd(db, bo, db, bo + bot, t2, 0, bot, sizeB - bot);
    c := Run(t2, 0, bot);
    t2[bot] := carry;
    SnocVal(c, Run(t2, 0, bot + 1), carry);
    KMul(threshold, t1, 0, t2, 0, t3, 0, bot + 1, bot + 1);
    forall k | 0 <= k < bot + 1 { t1[k] := 0; }
    forall k | 0 <= k < bot + 1 { t2[k] := 0; }
  }

  /** t1 := a0 * b0 and t2 := a1 * b1. */
  method OuterProducts(threshold: nat, da: array<digit>, ao: nat, db: array<digit>, bo: nat,
                       t1: array<digit>, t2: array<digit>, sizeA: nat, sizeB: nat, bot: nat)
    requires threshold >= 4 && 4 <= sizeA && bot < sizeB <= sizeA && bot == Half(sizeA)
    requires ao + sizeA <= da.Length && bo + sizeB <= db.Length
    requires t1.Length == t2.Length == 2 * bot + 2
    requires t1 != t2 && da != t1 && da != t2 && db != t1 && db != t2
    requires forall k :: 0 <= k < t1.Length ==> t1[k] == 0
    requires forall k :: 0 <= k < t2.Length ==> t2[k] == 0
    modifies t1, t2
    ensures Val(Run(t1, 0, 2 * bot)) == Val(Run(da, ao, bot)) * Val(Run(db, bo, bot))
    ensures Val(Run(t2, 0, 2 * bot)) == Val(Run(da, ao + bot, sizeA - bot)) * Val(Run(db, bo + bot, sizeB - bot))
    decreases sizeA, 0
  {
    hide Val, Run, Room, Half, Splits, Pow;
    HalfFacts(sizeA);
    var at, bt := sizeA - bot, sizeB - bot;
    RoomBound(threshold, bot, bot, bot);
    RoomBound(threshold, at, bt, bot);
    KMul(threshold, da, ao, db, bo, t1, 0, bot, bot);
    KMul(threshold, da, ao + bot, db, bo + bot, t2, 0, at, bt);
    ZerosAbove(t2, at + bt, 2 * bot);
  }

  /** Zero digits above the first n do not count. */
  lemma ZerosAbove(t: array<digit>, n: nat, m: nat)
    requires n <= m <= t.Length && forall k :: n <= k < m ==> t[k] == 0
    ensures Val(Run(t, 0, m)) == Val(Run(t, 0, n))
  {
    hide Val;
    ValClamp(Run(t, 0, m), n);
    assert Run(t, 0, m)[..n] == Run(t, 0, n);
  }

  // ---- s_ksqr ----

  /** The digits of dc that s_ksqr touches. */
  function SqrRoom(threshold: nat, size: nat): nat {
    if threshold != 0 && size > threshold then 4 * Half(size) else 2 * size
  }

  /** s_ksqr on so many digits ends with a call depth of at most n. */
  ghost predicate SqrEnds(threshold: nat, size: nat, n: nat) {
    threshold == 0 || size <= threshold ||
    (n > 0
     && SqrEnds(threshold, Half(size), n - 1)
     && SqrEnds(threshold, size - Half(size), n - 1)
     && Ends(threshold, Half(size), size - Half(size), n - 1))
  }

  ghost predicate SqrTerminates(threshold: nat, size: nat) {
    exists n: nat :: SqrEndsWithin(threshold, size, n)
  }

  ghost predicate SqrEndsWithin(threshold: nat, size: nat, n: nat) {
    SqrEnds(threshold, size, n)
  }

  /** What a caller of s_ksqr can check beforehand. */
  predicate SqrEndsFor(threshold: nat, size: nat) {
    threshold == 0 || threshold >= 4 || size < 4 || size == 5 || (size == 4 && threshold == 3)
  }

  lemma {:induction false} SqrEndsEnough(threshold: nat, size: nat, n: nat)
    requires SqrEndsFor(threshold, size) && size <= n
    ensures SqrEnds(threshold, size, n)
    decreases n
  {
    if threshold != 0 && size > threshold {
      var h := Half(size);
      SqrEndsEnough(threshold, h, n - 1);
      SqrEndsEnough(threshold, size - h, n - 1);
      if threshold >= 4 {
        LargeThresholdEnds(threshold, h, size - h, n - 1);
      }
    }
  }

  /** The product inside a squaring that ends does not split, or the threshold is large. */
  lemma InnerEnds(threshold: nat, size: nat)
    requires SqrEndsFor(threshold, size) && 0 < threshold < size
    ensures EndsFor(threshold, Half(size), size - Half(size))
    ensures SqrEndsFor(threshold, Half(size)) && SqrEndsFor(threshold, size - Half(size))
    ensures 1 <= Half(size) < size && size <= 2 * Half(size) && 3 * Half(size) <= 2 * size
    ensures Half(Half(size)) <= Half(size)
  {
  }

  /** Every other squaring multiplies halves that split, at once or further down. */
  lemma {:induction false} SqrRuns(threshold: nat, size: nat, n: nat)
    requires !SqrEndsFor(threshold, size)
    ensures !SqrEnds(threshold, size, n)
  {
    if n > 0 {
      SmallThresholdRuns(threshold, Half(size), size - Half(size), n - 1);
    }
  }

  /** s_ksqr ends on exactly the sizes that SqrEndsFor describes. */
  lemma SqrEndsExactly(threshold: nat, size: nat)
    ensures SqrTerminates(threshold, size) <==> SqrEndsFor(threshold, size)
  {
    hide SqrEnds;
    if SqrEndsFor(threshold, size) {
      SqrEndsEnough(threshold, size, size);
      assert SqrEndsWithin(threshold, size, size);
    } else {
      forall n: nat
        ensures !SqrEndsWithin(threshold, size, n)
      {
        SqrRuns(threshold, size, n);
      }
    }
  }

  /** Unsigned recursive squaring into zeroed digits (imath.c:2673). */
  method KSqr(threshold: nat, da: array<digit>, ao: nat, dc: array<digit>, co: nat, size: nat)
    requires SqrEndsFor(threshold, size)
    requires ao + size <= da.Length && co + 2 * size <= dc.Length && co + SqrRoom(threshold, size) <= dc.Length
    requires dc != da
    requires forall k :: co <= k < co + 2 * size ==> dc[k] == 0
    modifies dc
    ensures Val(Run(dc, co, 2 * size)) == Val(Run(da, ao, size)) * Val(Run(da, ao, size))
    ensures OnlyRun(dc, co, 2 * size)
    decreases size, 1
  {
    hide Val, Run, Pow, Joined, Room, Half, Splits, EndsFor, SqrEndsFor;
    if threshold == 0 || size <= threshold {
      USqr(da, ao, dc, co, size);
      return;
    }
    InnerEnds(threshold, size);
    var bot := Half(size);
    var t1 := new digit[2 * bot + 2](_ => 0);
    var t2 := new digit[2 * bot + 2](_ => 0);
    var t3 := new digit[4 * bot](_ => 0);
    ghost var a0, a1 := Run(da, ao, bot), Run(da, ao + bot, size - bot);
    SplitVal(da, ao, size, bot);
    SqrProducts(threshold, da, ao, t1, t2, t3, size, bot);
    Double(t3, size, 2 * bot + 1);
    SqrJoin(Val(a0), Val(a1), bot);
    MiddleFits(a0, a1, a0, a1, bot);
    MulComm(Val(a0), Val(a1));
    ProductFits(Run(da, ao, size), Run(da, ao, size));
    Assemble(t1, t2, t3, dc, co, bot, 2 * size);
  }

  /** Lines 2692-2695: t1 := a0 * a0, t2 := a1 * a1 and t3 := a0 * a1. */
  method SqrProducts(threshold: nat, da: array<digit>, ao: nat, t1: array<digit>, t2: array<digit>, t3: array<digit>,
                     size: nat, bot: nat)
    requires 0 < threshold < size && SqrEndsFor(threshold, size) && bot == Half(size)
    requires ao + size <= da.Length && 0 < bot < size <= 2 * bot
    requires t1.Length == t2.Length == 2 * bot + 2 && t3.Length == 4 * bot
    requires t1 != t2 && t1 != t3 && t2 != t3 && da != t1 && da != t2 && da != t3
    requires forall k :: 0 <= k < t1.Length ==> t1[k] == 0
    requires forall k :: 0 <= k < t2.Length ==> t2[k] == 0
    requires forall k :: 0 <= k < t3.Length ==> t3[k] == 0
    modifies t1, t2, t3
    ensures Val(Run(t1, 0, 2 * bot)) == Val(Run(da, ao, bot)) * Val(Run(da, ao, bot))
    ensures Val(Run(t2, 0, 2 * bot)) == Val(Run(da, ao + bot, size - bot)) * Val(Run(da, ao + bot, size - bot))
    ensures Val(Run(t3, 0, size)) == Val(Run(da, ao, bot)) * Val(Run(da, ao + bot, size - bot))
    ensures forall k :: size <= k < t3.Length ==> t3[k] == 0
    decreases size, 0
  {
    hide Val, Run, Pow, Room, SqrRoom, Half, Splits, EndsFor, SqrEndsFor;
    var at := size - bot;
    InnerEnds(threshold, size);
    RoomBound(threshold, bot, at, bot);
    SqrRoomBound(threshold, bot);
    SqrRoomBound(threshold, at);
    KSqr(threshold, da, ao, t1, 0, bot);
    KSqr(threshold, da, ao + bot, t2, 0, at);
    ValClamp(Run(t2, 0, 2 * bot), 2 * at);
    assert Run(t2, 0, 2 * bot)[..2 * at] == Run(t2, 0, 2 * at);
    KMul(threshold, da, ao, da, ao + bot, t3, 0, bot, at);
  }

  /** The room of s_ksqr is twice the operand exactly if it does not split or the size is even. */
  lemma SqrRoomExact(threshold: nat, size: nat)
    ensures SqrRoom(threshold, size) >= 2 * size
    ensures SqrRoom(threshold, size) == 2 * size <==> threshold == 0 || size <= threshold || size % 2 == 0
  {
  }

  lemma SqrRoomBound(threshold: nat, n: nat)
    ensures SqrRoom(threshold, n) <= 2 * n + 2
  {
  }

  lemma SqrJoin(a0: nat, a1: nat, n: nat)
    ensures Joined(a0 * a0, 2 * (a0 * a1), a1 * a1, n) == (a0 + Pow(n) * a1) * (a0 + Pow(n) * a1)
  {
    MulComm(a0, a1);
    ProductJoined(a0, a1, a0, a1, n);
  }

  /** The quick multiply by two of s_ksqr: top digits of t are shifted left by one bit. */
  method Double(t: array<digit>, top: nat, n: nat)
    requires top < n <= t.Length
    requires forall k :: top <= k < n ==> t[k] == 0
    modifies t
    ensures Val(Run(t, 0, n)) == 2 * old(Val(Run(t, 0, top)))
  {
    hide Val, At, Lower, Upper, Run;
    Empty();
    ghost var s := Run(t, 0, top);
    var i, save: word := 0, 0;
    while i < top
      invariant i <= top && save <= 1
      invariant Val(Run(t, 0, i)) + At(save, i) == Val(s[..i]) + Val(s[..i])
      invariant OnlyRun(t, 0, i)
    {
      ghost var c, k := Run(t, 0, i), save;
      var w: word := 2 * t[i] + save;
      t[i] := Lower(w);
      AddStep(c, Run(t, 0, i + 1), s, s, k, w);
      save := Upper(w);
      i := i + 1;
    }
    assert s[..i] == s;
    ghost var c := Run(t, 0, top);
    t[i] := save;
    SnocVal(c, Run(t, 0, top + 1), save);
    ValClamp(Run(t, 0, n), top + 1);
    assert Run(t, 0, n)[..top + 1] == Run(t, 0, top + 1);
  }
}
