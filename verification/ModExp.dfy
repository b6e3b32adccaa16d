/** Division with signs, the reduction constant and modular exponentiation as a caller sees them
    (imath.c:954-1110, imath.c:1335-1381, imath.c:3137-3232).
 */
module ModExp {
  import opened Digits
  import opened DigitLoops
  import opened MpInts
  import opened Shifts
  import opened Quotients
  import opened Division
  import opened Barrett

  // ---- Powers of two ----

  lemma {:induction false} PowerSplit(n: nat, k: nat, j: nat)
    requires n > 0 && n * Pow2(k) == Pow2(j)
    ensures k <= j && n == Pow2(j - k)
    decreases k
  {
    Pow2Even(k);
    Pow2Even(j);
    if k == 0 {
      assert n * 1 == n;
    } else {
      MulAssoc(n, 2, Pow2(k - 1));
      MulComm(n, 2);
      MulAssoc(2, n, Pow2(k - 1));
      if j == 0 {
        MulMono(1, n, Pow2(k - 1));
      } else {
        PowerSplit(n, k - 1, j - 1);
      }
    }
  }

  /** A power of two of more than one digit ends with a zero digit. */
  lemma LongPower(s: seq<digit>)
    requires Canonical(s) && |s| > 1 && PowerOfTwo(Val(s))
    ensures s[0] == 0
  {
    hide Val;
    var j: nat :| Val(s) == Pow2(j);
    CanonicalByValue(s);
    PowMono(1, |s| - 1);
    Pow2Digits(1);
    PowerAbove(j);
    ValHeadTail(s);
    SplitUnique(0, Pow2(j - DIGIT_BIT), s[0], Val(s[1..]), RADIX);
  }

  lemma PowerAbove(j: nat)
    requires Pow2(j) >= Pow2(DIGIT_BIT)
    ensures j >= DIGIT_BIT && Pow2(j) == RADIX * Pow2(j - DIGIT_BIT)
  {
    Pow2Radix();
    if j < DIGIT_BIT {
      Pow2Less(j);
    }
    Pow2Add(DIGIT_BIT, j - DIGIT_BIT);
  }

  lemma ValHeadTail(s: seq<digit>)
    requires |s| > 0
    ensures Val(s) == s[0] + RADIX * Val(s[1..])
  {
  }

  lemma TailCanonical(s: seq<digit>)
    requires Canonical(s) && |s| > 1
    ensures Canonical(s[1..])
  {
  }

  /** s_isp2 (imath.c:3140): the exponent of a power of two, -1 for every other number. */
  method IsP2(z: MpInt) returns (k: int)
    requires z.Valid() && z.Mag() > 0
    ensures k >= 0 ==> z.Mag() == Pow2(k)
    ensures k >= 0 <==> PowerOfTwo(z.Mag())
  {
    hide Val, Canonical, PowerOfTwo, Pow2;
    ghost var s := Run(z.digits, 0, z.used);
    assert s[0..] == s;
    StartPower(Val(s));
    var i := 0;
    k := 0;
    while i < z.used - 1
      invariant 0 <= i <= z.used - 1 && k == DIGIT_BIT * i
      invariant Canonical(s[i..]) && Val(s) == Val(s[i..]) * Pow2(k)
      invariant PowerOfTwo(Val(s)) <==> PowerOfTwo(Val(s[i..]))
    {
      if z.digits[i] != 0 {
        if PowerOfTwo(Val(s[i..])) {
          LongPower(s[i..]);
        }
        return -1;
      }
      NextDigit(s, i, k);
      TailCanonical(s[i..]);
      i := i + 1;
      k := k + DIGIT_BIT;
    }
    assert s[i..] == [s[i]];
    ValOne(s[i..]);
    k := TopPower(z.digits[i], k, Val(s));
  }

  lemma StartPower(v: nat)
    ensures v * Pow2(0) == v
  {
  }

  lemma NextDigit(s: seq<digit>, i: nat, k: nat)
    requires i + 1 < |s| && s[i] == 0 && Val(s) == Val(s[i..]) * Pow2(k) && Val(s) > 0
    ensures Val(s) == Val(s[i + 1..]) * Pow2(k + DIGIT_BIT)
    ensures PowerOfTwo(Val(s[i..])) <==> PowerOfTwo(Val(s[i + 1..]))
    ensures s[i..][1..] == s[i + 1..]
  {
    hide Val, PowerOfTwo;
    var h := Val(s[i + 1..]);
    assert s[i..][1..] == s[i + 1..];
    ValHeadTail(s[i..]);
    Pow2Radix();
    Pow2Add(DIGIT_BIT, k);
    MulComm(RADIX, h);
    MulAssoc(h, RADIX, Pow2(k));
    PositiveProduct(h, RADIX, Pow2(k));
    ScaledPower(h, DIGIT_BIT);
  }

  lemma PositiveProduct(h: nat, r: nat, p: nat)
    requires (h * r) * p > 0
    ensures h > 0
  {
  }

  lemma ScaledPower(h: nat, k: nat)
    requires h > 0
    ensures PowerOfTwo(h * Pow2(k)) <==> PowerOfTwo(h)
  {
    if PowerOfTwo(h * Pow2(k)) {
      var j: nat :| h * Pow2(k) == Pow2(j);
      PowerSplit(h, k, j);
    }
    if PowerOfTwo(h) {
      var j: nat :| h == Pow2(j);
      Pow2Add(j, k);
      assert h * Pow2(k) == Pow2(j + k);
    }
  }

  /** Lines 3155-3164, on the top digit. */
  method TopPower(top: digit, k0: nat, ghost v: nat) returns (k: int)
    requires top > 0 && v == top * Pow2(k0)
    ensures k >= 0 ==> v == Pow2(k)
    ensures k >= 0 <==> PowerOfTwo(v)
  {
    hide Pow2, PowerOfTwo;
    var d: nat := top;
    k := k0;
    while d > 1
      invariant d > 0 && k >= 0 && v == d * Pow2(k)
    {
      if d % 2 == 1 {
        OddNotPower(d, k);
        return -1;
      }
      HalvePower(d, k);
      k := k + 1;
      d := d / 2;
    }
    ItIsPower(k);
  }

  lemma OddNotPower(d: nat, k: nat)
    requires d % 2 == 1 && d > 1
    ensures !PowerOfTwo(d * Pow2(k))
  {
    if PowerOfTwo(d * Pow2(k)) {
      var j: nat :| d * Pow2(k) == Pow2(j);
      OddPowerOfTwo(d, k, j);
    }
  }

  lemma HalvePower(d: nat, k: nat)
    requires d % 2 == 0
    ensures d * Pow2(k) == (d / 2) * Pow2(k + 1)
  {
    Pow2Even(k + 1);
    MulAssoc(d / 2, 2, Pow2(k));
  }

  lemma ItIsPower(k: nat)
    ensures PowerOfTwo(1 * Pow2(k))
  {
    assert 1 * Pow2(k) == Pow2(k);
  }

  /** s_2expt (imath.c:3172): the magnitude becomes 2^k; the sign is left as it was. */
  method TwoExpt(z: MpInt, k: nat)
    requires z.Sized()
    modifies z, z.digits
    ensures z.Valid() && (z.digits == old(z.digits) || fresh(z.digits)) && z.negative == old(z.negative)
    ensures z.Mag() == Pow2(k)
  {
    hide Val, Pow2;
    var ndig, rest := k / DIGIT_BIT + 1, k % DIGIT_BIT;
    z.Pad(ndig);
    forall i | 0 <= i < ndig {
      z.digits[i] := 0;
    }
    Pow2Less(rest);
    z.digits[ndig - 1] := Pow2(rest);
    z.used := ndig;
    TopOnly(Run(z.digits, 0, ndig), k);
  }

  lemma TopOnly(s: seq<digit>, k: nat)
    requires |s| == k / DIGIT_BIT + 1 && s[|s| - 1] == Pow2(k % DIGIT_BIT)
    requires forall i :: 0 <= i < |s| - 1 ==> s[i] == 0
    ensures Val(s) == Pow2(k)
  {
    hide Val, Pow2, Pow, At;
    var n := |s| - 1;
    ValSnoc(s, n);
    ValZeros(s[..n]);
    AtDef(s[n], n);
    Pow2Parts(k);
    MulComm(s[n], Pow(n));
  }

  // ---- mp_int_div ----

  /** What q and r are allowed to be: no number or one that is an operand or shares nothing. */
  ghost predicate Result(a: MpInt, b: MpInt, z: MpInt?)
    reads a, a.digits, b, b.digits, z, if z == null then {} else {z.digits}
  {
    z != null ==> z.Valid() && SameOrApart(a, z) && SameOrApart(b, z)
  }

  /** The magnitude of the quotient is v; it is negative as given unless it is zero. */
  ghost predicate IsQuotient(q: MpInt?, v: int, negative: bool)
    reads q, if q == null then {} else {q.digits}
  {
    q != null ==> q.Valid() && q.Mag() == v && q.negative == (v > 0 && negative)
  }

  ghost predicate IsRemainder(r: MpInt?, m: int, negative: bool)
    reads r, if r == null then {} else {r.digits}
  {
    r != null ==> r.Valid() && r.Mag() == m && r.negative == negative
  }

  /** Lines 1010-1027: a working copy of src, which is the output itself where the output is there
      and is not the other operand. */
  method WorkingCopy(src: MpInt, other: MpInt, out: MpInt?) returns (w: MpInt)
    requires src.Valid() && other.Valid() && Result(src, other, out)
    modifies Objects(out)
    ensures if out != null && other != out then w == out else fresh(w) && fresh(w.digits)
    ensures w.Valid() && w.Mag() == old(src.Mag())
    ensures out != null ==> out.Sized() && (out.digits == old(out.digits) || fresh(out.digits))
    ensures out != null && other == out ==> out.digits == old(out.digits) && unchanged(out) && unchanged(out.digits)
  {
    hide Val, Run, Canonical;
    if out != null && other != out {
      Copy(src, out);
      w := out;
    } else {
      w := InitCopy(src);
    }
  }

  /** The outputs and the working copies of a division, each output being its working copy or sharing
      nothing with either. */
  ghost predicate Workplace(q: MpInt?, r: MpInt?, qout: MpInt, rout: MpInt)
    reads q, r, qout, rout
  {
    && Apart(qout, rout)
    && (q != null ==> 1 <= q.used <= q.digits.Length && Apart(q, rout) && (q == qout || Apart(q, qout)))
    && (r != null ==> 1 <= r.used <= r.digits.Length && Apart(r, qout) && (r == rout || Apart(r, rout)))
    && (q != null && r != null ==> Apart(q, r))
  }

  /** Lines 1010-1027. */
  method WorkingCopies(a: MpInt, b: MpInt, q: MpInt?, r: MpInt?) returns (qout: MpInt, rout: MpInt)
    requires a.Valid() && b.Valid() && a != b && Result(a, b, q) && Result(a, b, r)
    requires q != null && r != null ==> Apart(q, r)
    modifies Objects(q), Objects(r)
    ensures Workplace(q, r, qout, rout)
    ensures qout == q || (fresh(qout) && fresh(qout.digits))
    ensures rout == r || (fresh(rout) && fresh(rout.digits))
    ensures q != null ==> q.digits == old(q.digits) || fresh(q.digits)
    ensures r != null ==> r.digits == old(r.digits) || fresh(r.digits)
    ensures qout.Valid() && rout.Valid() && qout.Mag() == old(a.Mag()) && rout.Mag() == old(b.Mag())
  {
    hide Val, Run, Canonical;
    qout := WorkingCopy(a, b, q);
    rout := WorkingCopy(b, a, r);
  }

  /** Lines 1048-1066: the signs, and the results to where they are wanted. */
  method Hand(q: MpInt?, r: MpInt?, qout: MpInt, rout: MpInt, sa: bool, sb: bool)
    requires Workplace(q, r, qout, rout) && qout.Valid() && rout.Valid()
    modifies qout`negative, rout`negative, Objects(q), Objects(r)
    ensures q != null ==> q.digits == old(q.digits) || fresh(q.digits)
    ensures r != null ==> r.digits == old(r.digits) || fresh(r.digits)
    ensures IsQuotient(q, old(qout.Mag()), sa != sb)
    ensures IsRemainder(r, old(rout.Mag()), old(rout.Mag()) > 0 && sa)
  {
    hide Val, Run, Canonical;
    SetSign(rout, sa);
    SetSign(qout, sa != sb);
    if q != null {
      Copy(qout, q);
    }
    if r != null {
      Copy(rout, r);
    }
  }

  /** Lines 1008-1062 for a divisor that is no power of two. */
  method LongDiv(a: MpInt, b: MpInt, q: MpInt?, r: MpInt?, sa: bool, sb: bool) returns (inside: bool)
    requires a.Valid() && b.Valid() && Result(a, b, q) && Result(a, b, r)
    requires q != null && r != null ==> Apart(q, r)
    requires 0 < b.Mag() < a.Mag()
    modifies Objects(q), Objects(r)
    ensures q != null ==> q.digits == old(q.digits) || fresh(q.digits)
    ensures r != null ==> r.digits == old(r.digits) || fresh(r.digits)
    ensures inside <==> QuotientInside(old(a.Mag()), old(b.Mag()))
    ensures inside ==> IsQuotient(q, Delivered(old(a.Mag()), old(b.Mag())), sa != sb)
    ensures inside ==> var m := old(a.Mag()) % old(b.Mag()); IsRemainder(r, m, m > 0 && sa)
  {
    hide Val, Run, Canonical, QuotientFound, QuotientInside, Delivered, IsQuotient, IsRemainder, Result;
    var qout, rout := WorkingCopies(a, b, q, r);
    inside := UDiv(qout, rout);
    if inside {
      Hand(q, r, qout, rout, sa, sb);
    }
  }

  /** Lines 1030-1062 for the divisor 2^lg. */
  method ShiftDiv(a: MpInt, b: MpInt, q: MpInt?, r: MpInt?, lg: nat, sa: bool, sb: bool)
    requires a.Valid() && b.Valid() && Result(a, b, q) && Result(a, b, r)
    requires q != null && r != null ==> Apart(q, r)
    requires b.Mag() == Pow2(lg)
    modifies Objects(q), Objects(r)
    ensures q != null ==> q.digits == old(q.digits) || fresh(q.digits)
    ensures r != null ==> r.digits == old(r.digits) || fresh(r.digits)
    ensures IsQuotient(q, old(a.Mag()) / Pow2(lg), sa != sb)
    ensures var m := old(a.Mag()) % Pow2(lg); IsRemainder(r, m, m > 0 && sa)
  {
    hide Val, Run, Canonical, Pow2;
    ShrPower(a.Mag(), lg);
    if q != null {
      Copy(a, q);
    }
    if r != null {
      Copy(a, r);
    }
    if q != null {
      QDiv(q, lg);
    }
    if r != null {
      QMod(r, lg);
    }
    if r != null {
      SetSign(r, sa);
    }
    if q != null {
      SetSign(q, sa != sb);
    }
  }

  lemma ShrPower(v: nat, k: nat)
    ensures Shr(v, k) == v / Pow2(k)
  {
  }

  /** mp_int_div (imath.c:954): quotient and remainder, either of which may be left out.  Unless
      the run leaves the buffer of s_udiv, the remainder is always right, with the sign of a; the
      quotient is right exactly if no division is needed, the divisor is a power of two, or s_udiv
      finds it. */
  method Div(a: MpInt, b: MpInt, q: MpInt?, r: MpInt?) returns (res: MpResult, inside: bool)
    requires a.Valid() && b.Valid() && Result(a, b, q) && Result(a, b, r)
    requires q != null && r != null ==> Apart(q, r)
    modifies Objects(q), Objects(r)
    ensures q != null ==> q.digits == old(q.digits) || fresh(q.digits)
    ensures r != null ==> r.digits == old(r.digits) || fresh(r.digits)
    ensures res == if old(b.Mag()) == 0 then MP_UNDEF else MP_OK
    ensures res == MP_UNDEF ==> inside && (q != null ==> q.Valid()) && (r != null ==> r.Valid())
    ensures res == MP_OK ==> (inside <==> DivInside(old(a.Mag()), old(b.Mag())))
    ensures res == MP_OK && inside ==>
              && IsQuotient(q, DivValue(old(a.Mag()), old(b.Mag())), old(a.negative) != old(b.negative))
              && var m := old(a.Mag()) % old(b.Mag());
                 IsRemainder(r, m, old(a.negative) && (m > 0 || old(a.Mag()) < old(b.Mag())))
  {
    hide Val, Run, Canonical, PowerOfTwo, Pow2, QuotientInside, Delivered;
    inside := true;
    var sa, sb := a.negative, b.negative;
    var zb := b.CmpZ();
    if zb == 0 {
      return MP_UNDEF, true;
    }
    res := MP_OK;
    ghost var va, vb := a.Mag(), b.Mag();
    var cmp := UCmp(a.digits, 0, a.used, b.digits, 0, b.used);
    SmallQuotient(va, vb);
    if cmp < 0 {
      SmallDiv(a, q, r);
    } else if cmp == 0 {
      EqualDiv(q, r, sa != sb);
    } else {
      var lg := IsP2(b);
      if lg < 0 {
        inside := LongDiv(a, b, q, r, sa, sb);
      } else {
        ShiftDiv(a, b, q, r, lg, sa, sb);
      }
    }
  }

  /** The inputs for which mp_int_div stays inside the buffer of the quotient. */
  ghost predicate DivInside(a: nat, b: nat)
    requires b > 0
  {
    a <= b || PowerOfTwo(b) || QuotientInside(a, b)
  }

  /** The quotient that it delivers, up to the sign. */
  ghost function DivValue(a: nat, b: nat): nat
    requires b > 0
  {
    DivNat(a, b);
    if a <= b || PowerOfTwo(b) then a / b else Delivered(a, b)
  }

  lemma DivValueExact(a: nat, b: nat)
    requires b > 0
    ensures DivValue(a, b) >= a / b
    ensures DivValue(a, b) == a / b <==> DivFound(a, b)
  {
    hide Delivered, QuotientFound, PowerOfTwo;
    DeliveredExact(a, b);
  }

  /** The inputs for which its quotient is right. */
  ghost predicate DivFound(a: nat, b: nat)
    requires b > 0
  {
    a <= b || PowerOfTwo(b) || QuotientFound(a, b)
  }

  /** Lines 971-982: the smaller number divided by the larger. */
  method SmallDiv(a: MpInt, q: MpInt?, r: MpInt?)
    requires a.Valid()
    requires (q != null ==> q.Valid() && SameOrApart(a, q)) && (r != null ==> r.Valid() && SameOrApart(a, r))
    requires q != null && r != null ==> Apart(q, r)
    modifies Objects(q), Objects(r)
    ensures q != null ==> q.digits == old(q.digits) || fresh(q.digits)
    ensures r != null ==> r.digits == old(r.digits) || fresh(r.digits)
    ensures q != null ==> q.Valid() && q.Mag() == 0 && !q.negative
    ensures IsRemainder(r, old(a.Mag()), old(a.negative))
  {
    hide Val, Run, Canonical;
    if r != null {
      Copy(a, r);
    }
    if q != null {
      q.SetZero();
    }
  }

  /** Lines 985-1001: two equal magnitudes. */
  method EqualDiv(q: MpInt?, r: MpInt?, negative: bool)
    requires (q != null ==> q.Valid()) && (r != null ==> r.Valid()) && (q != null && r != null ==> Apart(q, r))
    modifies Objects(q), Objects(r)
    ensures q != null ==> q.digits == old(q.digits) && q.Valid() && q.Mag() == 1 && q.negative == negative
    ensures r != null ==> r.digits == old(r.digits)
    ensures IsRemainder(r, 0, false)
  {
    hide Val, Canonical;
    if r != null {
      r.SetZero();
    }
    if q != null {
      q.SetZero();
      q.digits[0] := 1;
      OneDigit(Run(q.digits, 0, 1));
      q.negative := negative;
    }
  }

  lemma SmallQuotient(a: nat, b: nat)
    requires b > 0
    ensures a < b ==> a / b == 0 && a % b == a
    ensures a == b ==> a / b == 1 && a % b == 0
  {
    if a < b {
      DivUnique(a, b, 0, a);
    } else if a == b {
      DivUnique(a, b, 1, 0);
    }
  }

  /** Lines 1048-1060: the sign is set, and taken back from a zero. */
  method SetSign(z: MpInt, negative: bool)
    requires z.Valid()
    modifies z`negative
    ensures z.Valid() && z.Mag() == old(z.Mag()) && z.negative == (z.Mag() > 0 && negative)
  {
    hide Val, Run, Canonical;
    z.negative := negative;
    var c := z.CmpZ();
    if c == 0 {
      z.negative := false;
    }
  }

  /** mp_int_mod (imath.c:1079): for a positive modulus the least nonnegative residue.  For a
      negative one the remainder of a nonnegative a; a negative a gets one multiple of the modulus
      too many. */
  method Mod(a: MpInt, m: MpInt, c: MpInt) returns (res: MpResult, inside: bool)
    requires a.Valid() && m.Valid() && c.Valid() && SameOrApart(a, c) && SameOrApart(m, c)
    modifies c, c.digits
    ensures c.digits == old(c.digits) || fresh(c.digits)
    ensures res == if old(m.Mag()) == 0 then MP_UNDEF else MP_OK
    ensures res == MP_UNDEF ==> inside && c.Valid()
    ensures res == MP_OK ==> (inside <==> DivInside(old(a.Mag()), old(m.Mag())))
    ensures res == MP_OK && inside ==> c.Valid()
    ensures res == MP_OK && inside ==>
              c.Value() == if old(m.Value()) > 0 then old(a.Value()) % old(m.Value())
                           else TruncatedMod(old(a.Value()), old(m.Value()))
  {
    hide Val, Run, Canonical, DivInside, DivValue;
    var out := c;
    if m == c {
      out := new MpInt(DEFAULT_PRECISION);
    }
    ghost var va, vm, sa, na := a.Value(), m.Value(), a.negative, a.Mag();
    res, inside := Div(a, m, null, out);
    if res != MP_OK || !inside {
      return;
    }
    ResidueCases(sa, na, m.negative, m.Mag());
    var z := out.CmpZ();
    if z < 0 {
      Add(out, m, c);
    } else {
      Copy(out, c);
    }
  }

  /** What mp_int_mod makes of a negative modulus. */
  ghost function TruncatedMod(a: int, m: int): int
    requires m < 0
  {
    var r := (if a < 0 then -a else a) % -m;
    if a < 0 && r > 0 then m - r else r
  }

  lemma ResidueCases(sa: bool, a: nat, sm: bool, m: nat)
    requires m > 0
    ensures var (va, vm, r) := (Signed(sa, a), Signed(sm, m), a % m);
            (if vm > 0 then va % vm else TruncatedMod(va, vm)) == if sa && r > 0 then vm - r else r
  {
    if sm {
      if a == 0 {
        DivUnique(0, m, 0, 0);
      }
    } else {
      Residue(sa, a, m, a % m);
    }
  }

  lemma Residue(negative: bool, a: nat, m: nat, r: nat)
    requires m > 0 && r == a % m
    ensures Signed(negative, a) % m == if negative && r > 0 then m - r else r
  {
    var q := a / m;
    assert a == q * m + r;
    if negative {
      if r == 0 {
        DivUnique(-(a as int), m, -q, 0);
      } else {
        MulDist(-q, -1, m);
        DivUnique(-(a as int), m, -q - 1, m - r);
      }
    }
  }

  // ---- The reduction constant ----

  /** The moduli for which s_brmu finds the reduction constant. */
  ghost predicate ConstantFound(m: nat)
    requires m > 0
  {
    QuotientFound(Pow(2 * Length(m)), m)
  }

  /** The constant that s_brmu computes. */
  ghost function Constant(m: nat): nat
    requires m > 0
  {
    DivValue(Pow(2 * Length(m)), m)
  }

  lemma ConstantExact(m: nat)
    requires m > 0
    ensures Constant(m) >= Pow(2 * Length(m)) / m
    ensures Constant(m) == Pow(2 * Length(m)) / m <==> ConstantFound(m)
    ensures ConstantFound(m) ==> DivInside(Pow(2 * Length(m)), m)
  {
    hide Pow, Length, DivValue, QuotientFound, QuotientInside, PowerOfTwo;
    var a := Pow(2 * Length(m));
    DivValueExact(a, m);
    BelowLength(m);
    PowMono(Length(m), 2 * Length(m));
    if PowerOfTwo(m) {
      PowerFound(a, m);
    }
    if ConstantFound(m) {
      FoundInside(a, m);
    }
  }

  /** s_brmu (imath.c:3223), as long as it stays inside the buffer of s_udiv: z becomes B^(2k) / m
      exactly if the modulus is one of those, for which it always stays inside. */
  method BrMu(z: MpInt, m: MpInt) returns (res: MpResult, inside: bool)
    requires z.Valid() && m.Valid() && Apart(z, m) && m.Mag() > 0 && !m.negative && !z.negative
    modifies z, z.digits
    ensures res == MP_OK && (z.digits == old(z.digits) || fresh(z.digits))
    ensures inside <==> DivInside(Pow(2 * m.used), m.Mag())
    ensures inside ==> z.Valid() && !z.negative && z.Mag() == Constant(m.Mag())
    ensures inside ==> (RightConstant(m.Mag(), z.Mag()) <==> ConstantFound(m.Mag()))
    ensures ConstantFound(m.Mag()) ==> inside
  {
    hide Val, Run, Canonical, Pow, Pow2, QuotientFound, DivInside, DivValue, Length;
    var um := 2 * m.used;
    z.Pad(um);
    TwoExpt(z, DIGIT_BIT * um);
    Pow2Digits(um);
    LengthOf(Run(m.digits, 0, m.used));
    ConstantExact(m.Mag());
    res, inside := Div(z, m, z, null);
  }

  /** Dividing by a power of two would also be found by s_udiv. */
  lemma PowerFound(a: nat, m: nat)
    requires m > 0 && PowerOfTwo(m)
    ensures QuotientFound(a, m)
  {
    hide Pow, Pow2, NormShift, DivisionExact, Length, TopOf;
    TopOfPositive(m);
    var n, k := Length(m) - 1, NormShift(TopOf(m));
    var j: nat :| m == Pow2(j);
    Pow2Add(j, k);
    ScaledBounds(m);
    Pow2Digits(n);
    PowUp(n + 1);
    PowerMultiple(j + k, DIGIT_BIT * n);
    RoundDivisorExact(a * Scale(m), m * Scale(m), n + 1);
  }

  lemma PowerMultiple(i: nat, j: nat)
    requires Pow2(i) >= Pow2(j)
    ensures Pow2(i) % Pow2(j) == 0
  {
    hide Pow2;
    if i < j {
      Pow2Above(i, j);
    } else {
      Pow2Add(i - j, j);
      DivUnique(Pow2(i), Pow2(j), Pow2(i - j), 0);
    }
  }

  lemma {:induction false} Pow2Above(i: nat, j: nat)
    requires i < j
    ensures Pow2(i) < Pow2(j)
  {
    Pow2Even(j);
    if i < j - 1 {
      Pow2Above(i, j - 1);
    }
  }

  // ---- mp_int_exptmod ----

  /** What mp_int_exptmod delivers for a positive modulus. */
  ghost function Delivery(a: int, b: nat, m: nat): nat
    requires m > 0
  {
    ModBelow(a, m);
    Powered(b, 1, a % m, m, Constant(m))
  }

  /** The inputs for which it stays inside all its buffers: both divisions and every product. */
  ghost predicate ExptInside(a: int, b: nat, m: nat)
    requires m > 0
  {
    ModBelow(a, m);
    && DivInside(if a < 0 then -a else a, m) && DivInside(Pow(2 * Length(m)), m)
    && RunFits(b, 1, a % m, m, Constant(m), Reserved(2 * Length(Constant(m))))
  }

  /** Where the reduction constant is found, a to the b modulo m is delivered, except that a to the
      0 modulo 1 comes out as 1. */
  lemma DeliveryExact(a: int, b: nat, m: nat)
    requires m > 0 && ConstantFound(m)
    ensures Delivery(a, b, m) == if m == 1 && b == 0 then 1 else Exp(a, b) % m
  {
    hide Pow, Length, Constant, Powered;
    ConstantExact(m);
    ModBelow(a, m);
    PoweredExact(b, 1, a % m, m, Constant(m));
    GoalStart(a % m, b, m);
    ExpMod(a, b, m);
  }

  /** mp_int_exptmod (imath.c:1335) for a positive modulus, also when c is one of the operands: it
      stays inside its buffers exactly for the inputs of ExptInside, and then c becomes what
      Delivery says, which is a^b mod m if the reduction constant is found, a^0 mod 1 excepted. */
  method ExptMod(a: MpInt, b: MpInt, m: MpInt, c: MpInt) returns (res: MpResult, inside: bool)
    requires a.Valid() && b.Valid() && m.Valid() && c.Valid()
    requires SameOrApart(a, c) && SameOrApart(b, c) && SameOrApart(m, c)
    requires m.Value() >= 0 || b.Value() < 0
    modifies c, c.digits
    ensures c.digits == old(c.digits) || fresh(c.digits)
    ensures res == if old(m.Mag()) == 0 then MP_UNDEF else if old(b.Value()) < 0 then MP_RANGE else MP_OK
    ensures res != MP_OK ==> inside && c.Valid()
    ensures res == MP_OK ==> (inside <==> ExptInside(old(a.Value()), old(b.Mag()), old(m.Mag())))
    ensures res == MP_OK && inside ==>
              c.Valid() && c.Value() == Delivery(old(a.Value()), old(b.Mag()), old(m.Mag()))
    ensures res == MP_OK && inside && ConstantFound(old(m.Mag())) ==>
              (c.Value() == Exp(old(a.Value()), old(b.Mag())) % old(m.Mag())
               <==> !(old(m.Mag()) == 1 && old(b.Mag()) == 0))
  {
    hide Val, Run, Canonical, Delivery, ExptInside, ConstantFound;
    var zm := m.CmpZ();
    if zm == 0 {
      return MP_UNDEF, true;
    }
    var zb := b.CmpZ();
    if zb < 0 {
      return MP_RANGE, true;
    }
    var s := c;
    if c == b || c == m {
      s := new MpInt(2 * m.used);
    }
    ghost var va, vb, vm := a.Value(), b.Mag(), m.Mag();
    res := MP_OK;
    inside := Power(a, b, m, s);
    if inside {
      if ConstantFound(vm) {
        DeliveryExact(va, vb, vm);
      }
      OneModulo(va, vb, vm);
      Copy(s, c);
    }
  }

  lemma ExptParts(a: int, b: nat, m: nat)
    requires m > 0
    ensures a % m >= 0 && Delivery(a, b, m) == Powered(b, 1, a % m, m, Constant(m))
    ensures ExptInside(a, b, m) <==>
            && DivInside(if a < 0 then -a else a, m) && DivInside(Pow(2 * Length(m)), m)
            && RunFits(b, 1, a % m, m, Constant(m), Reserved(2 * Length(Constant(m))))
  {
    hide Pow, Length, DivInside, RunFits, Powered, Constant, Reserved;
    ModBelow(a, m);
  }

  lemma OneModulo(a: int, b: nat, m: nat)
    ensures m == 1 ==> Exp(a, b) % m == 0
  {
  }

  /** Lines 1351-1353 and 1365-1369: the residue of a and the reduction constant. */
  method Prepare(a: MpInt, m: MpInt) returns (t: MpInt, mu: MpInt, inside: bool)
    requires a.Valid() && m.Valid() && m.Value() > 0
    ensures fresh(t) && fresh(t.digits) && fresh(mu) && fresh(mu.digits) && Apart(t, mu)
    ensures inside <==> DivInside(a.Mag(), m.Mag()) && DivInside(Pow(2 * Length(m.Mag())), m.Mag())
    ensures inside ==> a.Value() % m.Mag() >= 0 && t.Valid() && t.Mag() == a.Value() % m.Mag()
    ensures inside ==> mu.Valid() && !mu.negative && mu.Mag() == Constant(m.Mag())
  {
    hide Val, Run, Canonical, Pow, Length, Reserved, DivInside, Constant, ConstantFound, RightConstant;
    LengthOf(Run(m.digits, 0, m.used));
    ModBelow(a.Value(), m.Mag());
    t := new MpInt(2 * m.used);
    mu := new MpInt(2 * m.used);
    var r;
    r, inside := Mod(a, m, t);
    if inside {
      r, inside := BrMu(mu, m);
    }
  }

  /** Lines 1351-1372. */
  method Power(a: MpInt, b: MpInt, m: MpInt, s: MpInt) returns (inside: bool)
    requires a.Valid() && b.Valid() && m.Valid() && s.Valid()
    requires SameOrApart(a, s) && Apart(b, s) && Apart(m, s)
    requires m.Value() > 0
    modifies s, s.digits
    ensures s.digits == old(s.digits) || fresh(s.digits)
    ensures inside <==> ExptInside(old(a.Value()), b.Mag(), m.Mag())
    ensures inside ==> s.Valid() && !s.negative && s.Mag() == Delivery(old(a.Value()), b.Mag(), m.Mag())
  {
    hide Val, Run, Canonical, Pow, Length, Reserved, RunFits, Powered, DivInside, Constant, ExptInside, Delivery;
    ExptParts(a.Value(), b.Mag(), m.Mag());
    var t, mu;
    t, mu, inside := Prepare(a, m);
    if inside {
      inside := Embar(t, b, m, mu, s);
    }
  }
}
