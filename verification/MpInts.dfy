/** mp_int: a sign and a growable buffer of digits (imath.h:57), with the operations the
    algorithms above it are written in. */
module MpInts {
  import opened Digits
  import opened DigitLoops
  import opened Karatsuba

  /** The initial values of the two library parameters (imath.c:167, imath.c:170). */
  const DEFAULT_PRECISION: nat := 64
  const MULTIPLY_THRESHOLD: nat := 32

  /** ROUND_PREC (imath.c:113). */
  function RoundPrec(p: nat): nat {
    2 * ((p + 1) / 2)
  }

  /** The room that s_pad leaves. */
  function Padded(alloc: nat, min: nat): nat {
    if alloc < min then RoundPrec(min) else alloc
  }

  /** The room that mp_int_init_size leaves (imath.c:393-394). */
  function Reserved(prec: nat): nat {
    if RoundPrec(prec) > DEFAULT_PRECISION then RoundPrec(prec) else DEFAULT_PRECISION
  }

  /** The mp_result codes that the modelled routines return. */
  datatype MpResult = MP_OK | MP_UNDEF | MP_RANGE | MP_TRUNC

  class MpInt {
    var digits: array<digit>
    var used: nat
    var negative: bool

    ghost predicate Sized()
      reads this
    {
      1 <= used <= digits.Length
    }

    /** Every operation leaves its result without leading zeros.  Zero may carry a sign. */
    ghost predicate Valid()
      reads this, digits
    {
      Sized() && Canonical(Run(digits, 0, used))
    }

    ghost function Mag(): nat
      requires Sized()
      reads this, digits
    {
      Val(Run(digits, 0, used))
    }

    ghost function Value(): int
      requires Sized()
      reads this, digits
    {
      Signed(negative, Mag())
    }

    /** mp_int_init_size: zero, with room for prec digits whose contents are arbitrary. */
    constructor (prec: nat)
      ensures Valid() && Value() == 0 && !negative && used == 1
      ensures fresh(digits) && digits.Length >= prec && digits.Length == Reserved(prec)
    {
      digits := new digit[Reserved(prec)];
      used := 1;
      negative := false;
      new;
      digits[0] := 0;
      ValOne(Run(digits, 0, 1));
    }

    /** s_pad: at least min digits of room; what was stored stays stored. */
    method Pad(min: nat)
      modifies this
      ensures used == old(used) && negative == old(negative)
      ensures digits.Length >= min && digits.Length >= old(digits.Length)
      ensures digits.Length == Padded(old(digits.Length), min)
      ensures digits == old(digits) || fresh(digits)
      ensures old(digits.Length) >= min ==> digits == old(digits)
      ensures forall k :: 0 <= k < old(digits.Length) ==> digits[k] == old(digits[k])
    {
      if digits.Length < min {
        var tmp := new digit[RoundPrec(min)];
        forall k | 0 <= k < digits.Length {
          tmp[k] := digits[k];
        }
        digits := tmp;
      }
    }

    /** CLAMP: drop leading zeros. */
    method Clamp()
      requires Sized()
      modifies this`used
      ensures Valid() && used <= old(used)
      ensures Mag() == old(Mag())
      ensures forall k :: used <= k < old(used) ==> digits[k] == 0
    {
      hide Val;
      var u := used;
      while u > 1 && digits[u - 1] == 0
        invariant 1 <= u <= used
        invariant forall k :: u <= k < used ==> digits[k] == 0
      {
        u := u - 1;
      }
      ValClamp(Run(digits, 0, used), u);
      assert Run(digits, 0, used)[..u] == Run(digits, 0, u);
      used := u;
    }

    /** mp_int_zero. */
    method SetZero()
      requires digits.Length > 0
      modifies this`used, this`negative, digits
      ensures Valid() && Value() == 0 && !negative && used == 1
      ensures forall k :: 1 <= k < digits.Length ==> digits[k] == old(digits[k])
    {
      digits[0], used, negative := 0, 1, false;
      ValOne(Run(digits, 0, 1));
    }

    /** CMPZ: the sign of the value. */
    method CmpZ() returns (r: int)
      requires Valid()
      ensures r == if Value() == 0 then 0 else if Value() < 0 then -1 else 1
    {
      MagZero(this);
      r := if used == 1 && digits[0] == 0 then 0 else if negative then -1 else 1;
    }
  }

  ghost function Signed(negative: bool, m: int): int {
    if negative then -m else m
  }

  /** Distinct objects with distinct buffers. */
  ghost predicate Apart(a: MpInt, b: MpInt)
    reads a, b
  {
    a != b && a.digits != b.digits
  }

  /** An operand may be the result object itself; otherwise they share nothing. */
  ghost predicate SameOrApart(a: MpInt, c: MpInt)
    reads a, c
  {
    a == c || a.digits != c.digits
  }

  /** What an output that may be left out consists of. */
  ghost function Objects(z: MpInt?): set<object>
    reads z
  {
    if z == null then {}
    else
      var y: MpInt := z;
      {y, y.digits}
  }

  /** A canonical number is zero exactly when its only digit is. */
  lemma MagZero(z: MpInt)
    requires z.Valid()
    ensures z.Mag() == 0 <==> z.used == 1 && z.digits[0] == 0
  {
    CanonicalZero(Run(z.digits, 0, z.used));
  }

  lemma CanonicalZero(s: seq<digit>)
    requires Canonical(s)
    ensures Val(s) == 0 <==> |s| == 1 && s[0] == 0
  {
    if |s| == 1 {
      ValOne(s);
    } else {
      CanonicalLonger(s, [0]);
    }
  }

  lemma CanonicalByValue(s: seq<digit>)
    requires |s| >= 1
    ensures Canonical(s) <==> |s| == 1 || Val(s) >= Pow(|s| - 1)
  {
    ValTop(s);
    if s[|s| - 1] != 0 {
      AtMono(1, s[|s| - 1], |s| - 1);
    }
  }

  // ---- Copies and comparisons ----

  /** mp_int_copy (imath.c:510). */
  method Copy(a: MpInt, c: MpInt)
    requires a.Valid() && c.Sized() && SameOrApart(a, c)
    modifies c, c.digits
    ensures c.Valid() && (c.digits == old(c.digits) || fresh(c.digits)) && c.digits.Length >= old(c.digits.Length)
    ensures c.Mag() == old(a.Mag()) && c.negative == old(a.negative)
  {
    hide Val;
    if a != c {
      c.Pad(a.used);
      forall k | 0 <= k < a.used {
        c.digits[k] := a.digits[k];
      }
      c.used := a.used;
      c.negative := a.negative;
      assert Run(c.digits, 0, c.used) == Run(a.digits, 0, a.used);
    }
  }

  /** mp_int_init_copy (imath.c:410): always a new buffer. */
  method InitCopy(a: MpInt) returns (z: MpInt)
    requires a.Valid()
    ensures fresh(z) && fresh(z.digits) && z.Valid()
    ensures z.Mag() == a.Mag() && z.negative == a.negative
  {
    z := new MpInt(a.used);
    Copy(a, z);
  }

  /** mp_int_abs (imath.c:569). */
  method Abs(a: MpInt, c: MpInt)
    requires a.Valid() && c.Sized() && SameOrApart(a, c)
    modifies c, c.digits
    ensures c.Valid() && (c.digits == old(c.digits) || fresh(c.digits))
    ensures c.Mag() == old(a.Mag()) && !c.negative
  {
    Copy(a, c);
    c.negative := false;
  }

  /** mp_int_neg (imath.c:587). */
  method Neg(a: MpInt, c: MpInt)
    requires a.Valid() && c.Sized() && SameOrApart(a, c)
    modifies c, c.digits
    ensures c.Valid() && (c.digits == old(c.digits) || fresh(c.digits))
    ensures c.Value() == -old(a.Value())
  {
    hide Val;
    var sign := a.negative;
    Copy(a, c);
    var r := c.CmpZ();
    if r != 0 {
      c.negative := !sign;
    }
  }

  /** mp_int_compare (imath.c:1241).  The sign of the result is right for all numbers but two
      zeros of which one carries a sign: those compare as different. */
  method Compare(a: MpInt, b: MpInt) returns (r: int)
    requires a.Valid() && b.Valid()
    ensures (r < 0 <==> a.Value() < b.Value()) && (r > 0 <==> a.Value() > b.Value())
            <==> !(a.Mag() == 0 && b.Mag() == 0 && a.negative != b.negative)
  {
    hide Val, Run, Canonical;
    if a.negative == b.negative {
      r := UCmp(a.digits, 0, a.used, b.digits, 0, b.used);
      if a.negative {
        r := -r;
      }
    } else {
      r := if a.negative then -1 else 1;
    }
  }

  /** mp_int_set_value (imath.c:455) for the value 1. */
  method SetOne(z: MpInt)
    requires z.Sized()
    modifies z, z.digits
    ensures z.Valid() && (z.digits == old(z.digits) || fresh(z.digits)) && z.digits.Length >= old(z.digits.Length)
    ensures z.Mag() == 1 && !z.negative
  {
    z.Pad(1);
    z.digits[0], z.used, z.negative := 1, 1, false;
    ValOne(Run(z.digits, 0, 1));
  }

  // ---- Addition and subtraction ----

  /** The branch of mp_int_add and mp_int_sub that adds magnitudes. */
  method AddMag(a: MpInt, b: MpInt, c: MpInt)
    requires a.Valid() && b.Valid() && c.Sized() && SameOrApart(a, c) && SameOrApart(b, c)
    modifies c, c.digits
    ensures c.Valid() && (c.digits == old(c.digits) || fresh(c.digits)) && c.digits.Length >= old(c.digits.Length)
    ensures c.Mag() == old(a.Mag()) + old(b.Mag()) && c.negative == old(c.negative)
  {
    hide Val, Run, At, Canonical, Padded;
    var ua, ub := a.used, b.used;
    ghost var va, vb := Run(a.digits, 0, ua), Run(b.digits, 0, ub);
    var max := if ua < ub then ub else ua;
    c.Pad(max);
    assert Run(a.digits, 0, ua) == va && Run(b.digits, 0, ub) == vb;
    var carry := UAdd(a.digits, 0, b.digits, 0, c.digits, 0, ua, ub);
    ghost var s := Run(c.digits, 0, max);
    c.used := max;
    if carry != 0 {
      c.Pad(max + 1);
      c.digits[max] := carry;
      c.used := max + 1;
      SnocVal(s, Run(c.digits, 0, max + 1), carry);
    }
    SumCanonical(va, vb, s, carry);
  }

  lemma SumCanonical(a: seq<digit>, b: seq<digit>, s: seq<digit>, carry: digit)
    requires Canonical(a) && Canonical(b)
    requires |s| == if |a| < |b| then |b| else |a|
    requires Val(s) + At(carry, |s|) == Val(a) + Val(b)
    ensures carry == 0 ==> Canonical(s) && Val(s) == Val(a) + Val(b)
    ensures carry != 0 ==> Canonical(s + [carry])
  {
    hide Val, Pow, At;
    AtZero(|s|);
    CanonicalByValue(a);
    CanonicalByValue(b);
    CanonicalByValue(s);
  }

  /** The branch that subtracts the smaller magnitude y from the larger x. */
  method SubMag(x: MpInt, y: MpInt, c: MpInt)
    requires x.Valid() && y.Valid() && c.Sized() && SameOrApart(x, c) && SameOrApart(y, c)
    requires y.Mag() <= x.Mag()
    modifies c, c.digits
    ensures c.Valid() && (c.digits == old(c.digits) || fresh(c.digits)) && c.digits.Length >= old(c.digits.Length)
    ensures c.Mag() == old(x.Mag()) - old(y.Mag()) && c.negative == old(c.negative)
    ensures old(c.digits.Length) >= old(x.used) ==>
              && c.digits == old(c.digits)
              && c.used <= old(x.used)
              && (forall k :: c.used <= k < old(x.used) ==> c.digits[k] == 0)
              && (forall k :: old(x.used) <= k < c.digits.Length ==> c.digits[k] == old(c.digits[k]))
  {
    hide Val, Run, Canonical;
    var ux, uy := x.used, y.used;
    LongerIsLarger(x, y);
    ghost var vx, vy := Run(x.digits, 0, ux), Run(y.digits, 0, uy);
    c.Pad(ux);
    assert Run(x.digits, 0, ux) == vx && Run(y.digits, 0, uy) == vy;
    USub(x.digits, 0, y.digits, 0, c.digits, 0, ux, uy);
    c.used := ux;
    c.Clamp();
  }

  lemma LongerIsLarger(x: MpInt, y: MpInt)
    requires x.Valid() && y.Valid() && y.Mag() <= x.Mag()
    ensures y.used <= x.used
  {
    hide Val;
    if y.used > x.used {
      CanonicalLonger(Run(y.digits, 0, y.used), Run(x.digits, 0, x.used));
    }
  }

  function Longer(m: nat, n: nat): nat {
    if m < n then n else m
  }

  /** mp_int_add (imath.c:607). */
  method Add(a: MpInt, b: MpInt, c: MpInt)
    requires a.Valid() && b.Valid() && c.Sized() && SameOrApart(a, c) && SameOrApart(b, c)
    modifies c, c.digits
    ensures c.Valid() && (c.digits == old(c.digits) || fresh(c.digits)) && c.digits.Length >= old(c.digits.Length)
    ensures c.Value() == old(a.Value()) + old(b.Value())
  {
    hide Val, Run, Canonical;
    var sa, sb := a.negative, b.negative;
    if sa == sb {
      AddMag(a, b, c);
      c.negative := sa;
    } else {
      var cmp := UCmp(a.digits, 0, a.used, b.digits, 0, b.used);
      if cmp >= 0 {
        SubMag(a, b, c);
        c.negative := sa;
      } else {
        SubMag(b, a, c);
        c.negative := sb;
      }
    }
  }

  /** mp_int_sub (imath.c:699). */
  method Sub(a: MpInt, b: MpInt, c: MpInt)
    requires a.Valid() && b.Valid() && c.Sized() && SameOrApart(a, c) && SameOrApart(b, c)
    modifies c, c.digits
    ensures c.Valid() && (c.digits == old(c.digits) || fresh(c.digits)) && c.digits.Length >= old(c.digits.Length)
    ensures c.Value() == old(a.Value()) - old(b.Value())
    ensures !old(a.negative) && !old(b.negative) && c.Value() >= 0 ==> !c.negative
    ensures old(a.negative) == old(b.negative) && old(c.digits.Length) >= Longer(old(a.used), old(b.used)) ==>
              && c.digits == old(c.digits) && c.used <= Longer(old(a.used), old(b.used))
              && (forall k :: c.used <= k < Longer(old(a.used), old(b.used)) ==> c.digits[k] == 0)
              && (forall k ::
                    Longer(old(a.used), old(b.used)) <= k < c.digits.Length ==> c.digits[k] == old(c.digits[k]))
  {
    hide Val, Run, Canonical;
    var sa, sb := a.negative, b.negative;
    if sa != sb {
      AddMag(a, b, c);
      c.negative := sa;
    } else {
      var cmp := UCmp(a.digits, 0, a.used, b.digits, 0, b.used);
      var osign := cmp < 0;
      if cmp >= 0 {
        LongerIsLarger(a, b);
      } else {
        LongerIsLarger(b, a);
      }
      if sa && cmp != 0 {
        osign := !osign;
      }
      if cmp >= 0 {
        SubMag(a, b, c);
      } else {
        SubMag(b, a, c);
      }
      c.negative := osign;
    }
  }

  // ---- Products ----

  /** The UMUL macro (imath.c:150): magnitudes only, the sign of z is left as it was.  The
      macro reserves nothing: z must have the digits that s_kmul touches. */
  method UMulTo(x: MpInt, y: MpInt, z: MpInt)
    requires x.Valid() && y.Valid() && z.Sized() && Apart(x, z) && Apart(y, z)
    requires z.digits.Length >= Room(MULTIPLY_THRESHOLD, x.used, y.used)
    modifies z`used, z.digits
    ensures z.Valid() && z.Mag() == x.Mag() * y.Mag()
  {
    hide Val, Run, Canonical, Room;
    var ua, ub := x.used, y.used;
    var o := ua + ub;
    RoomExact(MULTIPLY_THRESHOLD, ua, ub);
    forall k | 0 <= k < o {
      z.digits[k] := 0;
    }
    KMul(MULTIPLY_THRESHOLD, x.digits, 0, y.digits, 0, z.digits, 0, ua, ub);
    z.used := o;
    z.Clamp();
  }

  /** The USQR macro (imath.c:156), likewise. */
  method USqrTo(x: MpInt, z: MpInt)
    requires x.Valid() && z.Sized() && Apart(x, z)
    requires z.digits.Length >= SqrRoom(MULTIPLY_THRESHOLD, x.used)
    modifies z`used, z.digits
    ensures z.Valid() && z.Mag() == x.Mag() * x.Mag()
  {
    hide Val, Run, Canonical, SqrRoom;
    var ua := x.used;
    SqrRoomExact(MULTIPLY_THRESHOLD, ua);
    forall k | 0 <= k < 2 * ua {
      z.digits[k] := 0;
    }
    KSqr(MULTIPLY_THRESHOLD, x.digits, 0, z.digits, 0, ua);
    z.used := 2 * ua;
    z.Clamp();
  }

  // ---- mp_int_mul and mp_int_sqr ----

  /** The digits that mp_int_mul and mp_int_sqr have for a product of at most osize digits: in a
      buffer of their own if the target is an operand, otherwise in that of the target. */
  function Available(own: bool, alloc: nat, osize: nat): nat {
    if own then Reserved(osize) else Padded(alloc, osize)
  }

  /** What mp_int_mul has for the product is enough for s_kmul exactly if the call does not split,
      if the longer operand has an even number of digits and the other at most one less, or, where
      that is too little, if the default precision or what the target owns already makes up for it. */
  lemma ProductReserved(own: bool, alloc: nat, ua: nat, ub: nat)
    ensures var (p, q) := if ub > ua then (ub, ua) else (ua, ub);
            Room(MULTIPLY_THRESHOLD, ua, ub) <= Available(own, alloc, ua + ub) <==>
              || !Splits(MULTIPLY_THRESHOLD, p, q)
              || (p % 2 == 0 && q >= p - 1 && (own || q == p || alloc != 2 * p - 1))
              || (if own then p == MULTIPLY_THRESHOLD else alloc >= 4 * Half(p))
  {
    var (p, q) := if ub > ua then (ub, ua) else (ua, ub);
    assert Room(MULTIPLY_THRESHOLD, ua, ub) == Room(MULTIPLY_THRESHOLD, p, q) && ua + ub == p + q;
    hide Room, Splits;
    OwnReserved(p, q);
    TargetReserved(alloc, p, q);
  }

  lemma OwnReserved(p: nat, q: nat)
    requires q <= p
    ensures Room(MULTIPLY_THRESHOLD, p, q) <= Reserved(p + q) <==>
            !Splits(MULTIPLY_THRESHOLD, p, q) || (p % 2 == 0 && q >= p - 1) || p == MULTIPLY_THRESHOLD
  {
  }

  lemma TargetReserved(alloc: nat, p: nat, q: nat)
    requires q <= p
    ensures Room(MULTIPLY_THRESHOLD, p, q) <= Padded(alloc, p + q) <==>
              || !Splits(MULTIPLY_THRESHOLD, p, q)
              || (p % 2 == 0 && q >= p - 1 && (q == p || alloc != 2 * p - 1))
              || alloc >= 4 * Half(p)
  {
  }

  /** The same for mp_int_sqr and s_ksqr. */
  lemma SquareReserved(own: bool, alloc: nat, ua: nat)
    ensures SqrRoom(MULTIPLY_THRESHOLD, ua) <= Available(own, alloc, 2 * ua) <==>
            ua <= MULTIPLY_THRESHOLD || ua % 2 == 0 || (!own && alloc >= 2 * ua + 2)
  {
  }

  lemma PaddedEnough(alloc: nat, min: nat)
    ensures Padded(alloc, min) >= min && Padded(alloc, min) >= alloc && RoundPrec(min) >= min
  {
  }

  /** Lines 823-842 and 912-926: zeroed digits for the product. */
  method Output(c: MpInt, own: bool, osize: nat) returns (out: array<digit>)
    requires c.Valid()
    modifies c, c.digits
    ensures c.used == old(c.used) && c.negative == old(c.negative)
    ensures out.Length == Available(own, old(c.digits.Length), osize) >= osize
    ensures if own then fresh(out) && c.digits == old(c.digits) else out == c.digits
    ensures own ==> Run(c.digits, 0, c.used) == old(Run(c.digits, 0, c.used))
    ensures c.digits == old(c.digits) || fresh(c.digits)
    ensures forall k :: 0 <= k < osize ==> out[k] == 0
  {
    PaddedEnough(c.digits.Length, osize);
    if own {
      out := new digit[Available(true, 0, osize)];
    } else {
      c.Pad(osize);
      out := c.digits;
    }
    forall k | 0 <= k < osize {
      out[k] := 0;
    }
  }

  /** Lines 851-861 and 932-943: the digits become those of c, without leading zeros. */
  method Adopt(c: MpInt, out: array<digit>, osize: nat, negative: bool)
    requires 1 <= osize <= out.Length
    modifies c
    ensures c.Valid() && c.digits == out && c.negative == negative
    ensures c.Mag() == Val(Run(out, 0, osize))
  {
    hide Val, Run, Canonical;
    c.digits := out;
    c.used := osize;
    c.Clamp();
    c.negative := negative;
  }

  /** mp_int_mul (imath.c:794): the product, also when c is one of the operands, if the digits
      that are available are those that s_kmul touches. */
  method Mul(a: MpInt, b: MpInt, c: MpInt)
    requires a.Valid() && b.Valid() && c.Valid() && SameOrApart(a, c) && SameOrApart(b, c)
    requires a.Mag() > 0 && b.Mag() > 0 ==>
               Room(MULTIPLY_THRESHOLD, a.used, b.used)
               <= Available(c == a || c == b, c.digits.Length, a.used + b.used)
    modifies c, c.digits
    ensures c.Valid() && (c.digits == old(c.digits) || fresh(c.digits))
    ensures c.Value() == old(a.Value()) * old(b.Value())
  {
    hide Val, Run, Canonical, Room, Available;
    var ca := a.CmpZ();
    var cb := b.CmpZ();
    if ca == 0 || cb == 0 {
      c.SetZero();
      return;
    }
    ghost var va, vb := a.Value(), b.Value();
    SignedProduct(a.negative, a.Mag(), b.negative, b.Mag());
    var negative := a.negative != b.negative;
    var ua, ub := a.used, b.used;
    ghost var ra, rb := Run(a.digits, 0, ua), Run(b.digits, 0, ub);
    var out := Output(c, c == a || c == b, ua + ub);
    assert Run(a.digits, 0, ua) == ra && Run(b.digits, 0, ub) == rb;
    KMul(MULTIPLY_THRESHOLD, a.digits, 0, b.digits, 0, out, 0, ua, ub);
    Adopt(c, out, ua + ub, negative);
  }

  lemma SignedProduct(s: bool, m: nat, t: bool, n: nat)
    ensures Signed(s, m) * Signed(t, n) == Signed(s != t, m * n)
  {
  }

  /** mp_int_sqr (imath.c:901). */
  method Sqr(a: MpInt, c: MpInt)
    requires a.Valid() && c.Valid() && SameOrApart(a, c)
    requires SqrRoom(MULTIPLY_THRESHOLD, a.used) <= Available(a == c, c.digits.Length, 2 * a.used)
    modifies c, c.digits
    ensures c.Valid() && !c.negative && (c.digits == old(c.digits) || fresh(c.digits))
    ensures c.Value() == old(a.Value()) * old(a.Value())
  {
    hide Val, Run, Canonical, SqrRoom, Available;
    SignedProduct(a.negative, a.Mag(), a.negative, a.Mag());
    var ua := a.used;
    ghost var ra := Run(a.digits, 0, ua);
    var out := Output(c, a == c, 2 * ua);
    assert Run(a.digits, 0, ua) == ra;
    KSqr(MULTIPLY_THRESHOLD, a.digits, 0, out, 0, ua);
    Adopt(c, out, 2 * ua, false);
  }
}
