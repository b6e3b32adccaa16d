/** Two's-complement input and output (imath.c:2102, imath.c:2124, imath.c:3573, imath.c:3597). */
module BinaryIO {
  import opened Digits
  import opened DigitLoops
  import opened MpInts
  import opened Shifts

  type byte = x: int | 0 <= x < 256

  ghost function Pow256(n: nat): (p: nat)
    ensures p > 0
  {
    if n == 0 then 1 else 256 * Pow256(n - 1)
  }

  lemma {:induction false} Pow256Add(m: nat, n: nat)
    ensures Pow256(m + n) == Pow256(m) * Pow256(n)
  {
    if m != 0 {
      Pow256Add(m - 1, n);
      MulAssoc(256, Pow256(m - 1), Pow256(n));
    }
  }

  lemma {:induction false} Pow256Mono(m: nat, n: nat)
    requires m <= n
    ensures Pow256(m) <= Pow256(n)
  {
    if m < n {
      Pow256Mono(m, n - 1);
    }
  }

  lemma Pow256Four()
    ensures Pow256(4) == RADIX
  {
    assert Pow256(1) == 256 * Pow256(0);
    assert Pow256(2) == 256 * Pow256(1);
    assert Pow256(3) == 256 * Pow256(2);
  }

  lemma {:induction false} Pow256Digits(n: nat)
    ensures Pow256(4 * n) == Pow(n)
  {
    if n > 0 {
      Pow256Digits(n - 1);
      Pow256Four();
      Pow256Add(4, 4 * (n - 1));
    }
  }

  /** Little-endian bytes, as s_tobin first writes them. */
  ghost function Little(s: seq<byte>): nat {
    if |s| == 0 then 0 else s[0] + 256 * Little(s[1..])
  }

  /** Big-endian bytes, as they are delivered. */
  ghost function Big(s: seq<byte>): nat {
    if |s| == 0 then 0 else 256 * Big(s[..|s| - 1]) + s[|s| - 1]
  }

  /** The two's-complement reading of big-endian bytes. */
  ghost function Twos(s: seq<byte>): int {
    if |s| > 0 && s[0] >= 128 then Big(s) - Pow256(|s|) else Big(s)
  }

  lemma {:induction false} LittleConcat(s: seq<byte>, t: seq<byte>)
    ensures Little(s + t) == Little(s) + Pow256(|s|) * Little(t)
  {
    if |s| == 0 {
      assert s + t == t;
    } else {
      assert (s + t)[1..] == s[1..] + t;
      LittleConcat(s[1..], t);
      MulAssoc(256, Pow256(|s| - 1), Little(t));
    }
  }

  lemma LittleOne(d: byte)
    ensures Little([d]) == d
  {
    assert [d][1..] == [];
  }

  lemma {:induction false} LittleBound(s: seq<byte>)
    ensures Little(s) < Pow256(|s|)
  {
    if |s| > 0 {
      LittleBound(s[1..]);
    }
  }

  lemma {:induction false} BigReversed(s: seq<byte>, t: seq<byte>)
    requires |s| == |t| && forall k :: 0 <= k < |s| ==> t[k] == s[|s| - 1 - k]
    ensures Big(t) == Little(s)
  {
    if |s| > 0 {
      BigReversed(s[1..], t[..|t| - 1]);
    }
  }

  lemma {:induction false} BigFront(d: byte, s: seq<byte>)
    ensures Big([d] + s) == d * Pow256(|s|) + Big(s)
    decreases |s|
  {
    if |s| == 0 {
      assert [d] + s == [d];
      assert [d][..0] == [];
    } else {
      var n := |s| - 1;
      assert ([d] + s)[..n + 1] == [d] + s[..n];
      BigFront(d, s[..n]);
      MulAssoc(256, d, Pow256(n));
      MulComm(256, d);
      MulAssoc(d, 256, Pow256(n));
    }
  }

  lemma {:induction false} BigBound(s: seq<byte>)
    ensures Big(s) < Pow256(|s|)
  {
    if |s| > 0 {
      BigBound(s[..|s| - 1]);
    }
  }

  /** The top bit of a run of bytes compares its value with half the range. */
  lemma TopBitHalf(s: seq<byte>)
    requires |s| > 0
    ensures s[0] >= 128 <==> 2 * Big(s) >= Pow256(|s|)
  {
    var p := Pow256(|s| - 1);
    assert s == [s[0]] + s[1..];
    BigFront(s[0], s[1..]);
    BigBound(s[1..]);
    if s[0] >= 128 {
      MulMono(128, s[0], p);
    } else {
      MulMono(s[0], 127, p);
    }
  }

  // ---- s_2comp ----

  /** Two's complement in place: negation modulo 256^len (imath.c:3573). */
  method TwosComplement(buf: array<byte>, len: nat)
    requires len <= buf.Length
    modifies buf
    ensures Big(buf[..len]) == if old(Big(buf[..len])) == 0 then 0 else Pow256(len) - old(Big(buf[..len]))
    ensures forall k :: len <= k < buf.Length ==> buf[k] == old(buf[k])
  {
    hide Big, Pow256;
    ghost var b := buf[..len];
    BigEmpty();
    var i, s: int := len, 1;
    assert buf[len..len] == [] && b[len..] == [];
    while i > 0
      invariant 0 <= i <= len && 0 <= s <= 1
      invariant Big(buf[i..len]) + (if s == 1 then Pow256(len - i) else 0) == Pow256(len - i) - Big(b[i..])
      invariant forall k :: 0 <= k < buf.Length && !(i <= k < len) ==> buf[k] == old(buf[k])
    {
      i := i - 1;
      var c: int := 255 - buf[i];
      ghost var t, s0 := buf[i + 1..len], s;
      s := c + s;
      c := s % 256;
      s := s / 256;
      buf[i] := c;
      assert buf[i..len] == [c] + t;
      assert b[i..] == [b[i]] + b[i + 1..];
      ComplementStep(b[i], b[i + 1..], t, c, s0, s);
    }
    assert b[0..] == b && buf[0..len] == buf[..len];
    BigBound(b);
    BigBound(buf[..len]);
  }

  lemma BigEmpty()
    ensures Big([]) == 0 && Pow256(0) == 1
  {
  }

  lemma ComplementStep(b: byte, s: seq<byte>, t: seq<byte>, c: byte, k: int, k': int)
    requires |s| == |t| && 0 <= k <= 1 && c == (255 - b + k) % 256 && k' == (255 - b + k) / 256
    requires Big(t) + (if k == 1 then Pow256(|s|) else 0) == Pow256(|s|) - Big(s)
    ensures 0 <= k' <= 1
    ensures Big([c] + t) + (if k' == 1 then Pow256(|s| + 1) else 0) == Pow256(|s| + 1) - Big([b] + s)
  {
    hide *;
    BigFront(c, t);
    BigFront(b, s);
    Pow256Step(|s|);
    ComplementMath(b, c, k, k', Pow256(|s|), Pow256(|s| + 1), Big(t), Big(s));
  }

  lemma Pow256Step(n: nat)
    ensures Pow256(n + 1) == 256 * Pow256(n)
  {
  }

  lemma ComplementMath(b: byte, c: int, k: int, k': int, p: int, p': int, x: int, y: int)
    requires 0 <= k <= 1 && c == (255 - b + k) % 256 && k' == (255 - b + k) / 256 && p' == 256 * p
    requires x + (if k == 1 then p else 0) == p - y
    ensures 0 <= k' <= 1
    ensures c * p + x + (if k' == 1 then p' else 0) == p' - (b * p + y)
  {
    ByteCarry(b, c, k, k');
    ScaleSum(c, b, 255 + k - 256 * k', p);
  }

  lemma ByteCarry(b: byte, c: int, k: int, k': int)
    requires 0 <= k <= 1 && c == (255 - b + k) % 256 && k' == (255 - b + k) / 256
    ensures 0 <= k' <= 1 && c + b == 255 + k - 256 * k' && (k' == 1 ==> k == 1)
  {
  }

  lemma ScaleSum(c: int, b: int, x: int, p: int)
    requires c + b == x
    ensures c * p + b * p == x * p
  {
  }

  // ---- s_tobin ----

  /** The inner loop of s_tobin: the bytes of digit d, at most limit, the last digit without
      its leading zero bytes.  When the limit cuts it short, what is left of d or a further
      digit is lost. */
  method WriteDigit(d0: digit, last: bool, buf: array<byte>, pos0: nat, limit: nat) returns (pos: nat, done: bool)
    requires pos0 < limit <= buf.Length
    modifies buf
    ensures pos0 < pos <= limit && pos <= pos0 + 4
    ensures forall k :: 0 <= k < buf.Length && !(pos0 <= k < pos) ==> buf[k] == old(buf[k])
    ensures done ==> Little(buf[pos0..pos]) == d0 && (!last ==> pos == pos0 + 4)
    ensures done && last ==> pos == pos0 + 1 || d0 >= Pow256(pos - pos0 - 1)
    ensures !done ==> pos == limit && pos < pos0 + 4 && (!last || d0 >= Pow256(pos - pos0))
    ensures !done ==> Little(buf[pos0..pos]) == d0 % Pow256(pos - pos0)
  {
    hide Little, Pow256;
    var d: nat, i: int := d0, 4;
    pos := pos0;
    LittleEmpty();
    assert buf[pos0..pos0] == [];
    var stop := false;
    while !stop && i > 0 && pos < limit
      invariant pos0 <= pos <= limit && 0 <= i <= 4
      invariant !stop ==> pos == pos0 + (4 - i)
      invariant stop ==> last && d == 0 && i == 0
      invariant pos0 < pos <= pos0 + 4 || (pos == pos0 && i == 4)
      invariant d0 == Little(buf[pos0..pos]) + Pow256(pos - pos0) * d
      invariant pos > pos0 && last && d == 0 ==> stop
      invariant last && pos > pos0 + 1 ==> d0 >= Pow256(pos - pos0 - 1)
      invariant forall k :: 0 <= k < buf.Length && !(pos0 <= k < pos) ==> buf[k] == old(buf[k])
      decreases i, !stop
    {
      ghost var t := buf[pos0..pos];
      if pos > pos0 && last {
        DigitCut(d0, d, Little(t), pos - pos0);
      }
      buf[pos] := d % 256;
      assert buf[pos0..pos + 1] == t + [(d % 256) as byte];
      ByteStep(t, d);
      pos := pos + 1;
      d := d / 256;
      i := i - 1;
      if d == 0 && last {
        stop := true;
        i := 0;
      }
    }
    done := i == 0;
    if done {
      DigitDone(d0, d, Little(buf[pos0..pos]), pos - pos0, stop);
    } else {
      DigitCut(d0, d, Little(buf[pos0..pos]), pos - pos0);
      LittleBound(buf[pos0..pos]);
      MulComm(Pow256(pos - pos0), d);
      DivUnique(d0, Pow256(pos - pos0), d, Little(buf[pos0..pos]));
    }
  }

  lemma LittleEmpty()
    ensures Little([]) == 0 && Pow256(0) == 1
  {
  }

  lemma ByteStep(t: seq<byte>, d: nat)
    ensures Little(t) + Pow256(|t|) * d
         == Little(t + [d % 256]) + Pow256(|t| + 1) * (d / 256)
  {
    hide Little, Pow256;
    LittleConcat(t, [d % 256]);
    LittleOne(d % 256);
    Pow256Step(|t|);
    ByteMath(Pow256(|t|), Pow256(|t| + 1), d, d % 256, d / 256);
  }

  lemma ByteMath(p: nat, p': nat, d: nat, low: nat, high: nat)
    requires p' == 256 * p && d == low + 256 * high
    ensures p * d == p * low + p' * high
  {
    MulDist2(p, low, 256 * high);
    MulAssoc(p, 256, high);
    MulComm(p, 256);
  }

  lemma DigitDone(d0: digit, d: nat, v: nat, n: nat, stop: bool)
    requires d0 == v + Pow256(n) * d
    requires if stop then d == 0 else n == 4
    ensures v == d0
  {
    if !stop {
      Pow256Four();
      if d > 0 {
        MulMono(1, d, RADIX);
      }
    }
  }

  lemma DigitCut(d0: digit, d: nat, v: nat, n: nat)
    requires d0 == v + Pow256(n) * d
    ensures d > 0 ==> d0 >= Pow256(n)
  {
    if d > 0 {
      MulMono(1, d, Pow256(n));
      MulComm(d, Pow256(n));
    }
  }

  /** s_tobin (imath.c:3597) with its sign-pad byte: the magnitude, big-endian, in the n bytes
      written; MP_OK exactly when it fits in limit bytes with the top bit clear, and then n is the
      least number of bytes in which it does.  Otherwise its lowest bytes fill the limit. */
  method ToBin(z: MpInt, buf: array<byte>, limit: nat) returns (res: MpResult, n: nat)
    requires z.Valid() && 1 <= limit <= buf.Length
    modifies buf
    ensures 1 <= n <= limit && Big(buf[..n]) == z.Mag() % Pow256(n)
    ensures res == MP_OK ==> Big(buf[..n]) == z.Mag() && buf[0] < 128 && (n == 1 || 2 * z.Mag() >= Pow256(n - 1))
    ensures res == if 2 * z.Mag() < Pow256(limit) then MP_OK else MP_TRUNC
    ensures res == MP_TRUNC ==> n == limit
    ensures forall k :: n <= k < buf.Length ==> buf[k] == old(buf[k])
  {
    hide Val, Run, Canonical, Little, Big, Pow256;
    var uz, pos := WriteDigits(z, buf, limit);
    ghost var t := buf[..pos];
    if uz == 0 {
      LittleTop(t);
    }
    if buf[pos - 1] >= 128 {
      if pos < limit {
        buf[pos] := 0;
        PadZero(t);
        LittleBound(buf[..pos + 1]);
        assert buf[..pos + 1] == t + [0];
        pos := pos + 1;
      } else {
        uz := 1;
      }
    }
    ghost var s := buf[..pos];
    if uz == 0 {
      PadFits(pos, limit, z.Mag(), s);
    }
    if uz == 0 {
      LittleBound(s);
      DivUnique(z.Mag(), Pow256(pos), 0, z.Mag());
    }
    ReverseBytes(buf, pos);
    BigReversed(s, buf[..pos]);
    n := pos;
    res := if uz == 0 then MP_OK else MP_TRUNC;
  }

  /** The loop of s_tobin over the digits: uz digits are left when the limit is reached. */
  method WriteDigits(z: MpInt, buf: array<byte>, limit: nat) returns (uz: nat, pos: nat)
    requires z.Valid() && 1 <= limit <= buf.Length
    modifies buf
    ensures 1 <= pos <= limit && Little(buf[..pos]) == z.Mag() % Pow256(pos)
    ensures uz == 0 ==> Little(buf[..pos]) == z.Mag() && (pos == 1 || z.Mag() >= Pow256(pos - 1))
    ensures uz > 0 ==> pos == limit && z.Mag() >= Pow256(limit)
    ensures forall k :: pos <= k < buf.Length ==> buf[k] == old(buf[k])
  {
    hide Val, Run, Little, Pow256;
    ghost var s := Run(z.digits, 0, z.used);
    uz, pos := z.used, 0;
    LittleEmpty();
    Empty();
    while uz > 0 && pos < limit
      invariant 0 <= uz <= z.used && pos <= limit
      invariant uz > 0 ==> pos == 4 * (z.used - uz)
      invariant pos > 0 || uz == z.used
      invariant Little(buf[..pos]) == Val(s[..z.used - uz])
      invariant uz == 0 ==> pos == 1 || z.Mag() >= Pow256(pos - 1)
      invariant forall k :: pos <= k < buf.Length ==> buf[k] == old(buf[k])
      decreases uz
    {
      var k := z.used - uz;
      ghost var b := buf[..pos];
      var pos', done := WriteDigit(z.digits[k], uz == 1, buf, pos, limit);
      assert buf[..pos'] == b + buf[pos..pos'];
      LittleConcat(b, buf[pos..pos']);
      if !done {
        CutShort(s, k, pos' - pos, pos');
        CutBytes(s, k, pos' - pos, Little(buf[pos..pos']));
        return uz, pos';
      }
      DigitAdded(s, k);
      if uz == 1 {
        LastByte(s, k, pos' - pos);
      }
      pos := pos';
      uz := uz - 1;
    }
    if uz > 0 {
      CutShort(s, z.used - uz, 0, pos);
      CutBytes(s, z.used - uz, 0, 0);
    }
    assert s[..z.used] == s;
    LittleBound(buf[..pos]);
    if uz == 0 {
      DivUnique(z.Mag(), Pow256(pos), 0, z.Mag());
    }
  }

  /** The bytes before a cut are those of the magnitude. */
  lemma CutBytes(s: seq<digit>, k: nat, w: nat, low: nat)
    requires k < |s| && w < 4 && low == s[k] % Pow256(w)
    ensures Val(s[..k]) + Pow256(4 * k) * low == Val(s) % Pow256(4 * k + w)
  {
    hide Val, Pow, Pow256;
    var p, q := Pow256(4 * k), Pow256(w);
    Pow256Digits(k);
    ValSplit(s, k);
    ValBound(s[..k]);
    HeadOf(s[k..]);
    CutRest(s[k], Val(s[k + 1..]), w);
    Pow256Add(4 * k, w);
    var e := Val(s[k..]) / q;
    assert Val(s[k..]) == e * q + low;
    CutMath(Val(s[..k]), p, q, e, low);
    DivUnique(Val(s), p * q, e, Val(s[..k]) + p * low);
  }

  lemma HeadOf(s: seq<digit>)
    requires |s| > 0
    ensures Val(s) == s[0] + RADIX * Val(s[1..])
  {
  }

  lemma CutRest(d: digit, v: nat, w: nat)
    requires w < 4
    ensures (d + RADIX * v) % Pow256(w) == d % Pow256(w)
  {
    hide Pow256;
    Pow256Four();
    Pow256Add(w, 4 - w);
    var q, h := Pow256(w), Pow256(4 - w);
    var e := d / q;
    assert d == e * q + d % q;
    MulComm(q, h);
    MulComm(h * q, v);
    MulAssoc(v, h, q);
    MulDist(e, v * h, q);
    DivUnique(d + RADIX * v, q, e + v * h, d % q);
  }

  lemma CutMath(a: nat, p: nat, q: nat, e: nat, low: nat)
    requires a < p && low < q
    ensures a + p * (e * q + low) == e * (p * q) + (a + p * low)
    ensures a + p * low < p * q
  {
    MulDist2(p, e * q, low);
    MulAssoc(p, e, q);
    MulComm(p, e);
    MulAssoc(e, p, q);
    MulMono(low + 1, q, p);
    MulDist(low, 1, p);
    MulComm(low, p);
    MulComm(q, p);
  }

  /** The last byte written is needed. */
  lemma LastByte(s: seq<digit>, k: nat, w: nat)
    requires Canonical(s) && k + 1 == |s| && 1 <= w <= 4 && (w == 1 || s[k] >= Pow256(w - 1))
    ensures 4 * k + w == 1 || Val(s) >= Pow256(4 * k + w - 1)
  {
    hide Val, Pow, Pow256;
    if w > 1 {
      ValTop(s);
      AtDef(s[k], k);
      Pow256Digits(k);
      Pow256Add(4 * k, w - 1);
      MulMono(Pow256(w - 1), s[k], Pow(k));
      MulComm(Pow(k), Pow256(w - 1));
    } else if k > 0 {
      CanonicalByValue(s);
      Pow256Digits(k);
    }
  }

  lemma DigitAdded(s: seq<digit>, k: nat)
    requires k < |s|
    ensures Val(s[..k + 1]) == Val(s[..k]) + Pow256(4 * k) * s[k]
  {
    hide Val;
    TakeSnoc(s, k);
    Pow256Digits(k);
    AtPow(s[k], k);
  }

  /** What a limit of 4k + w bytes cannot hold. */
  lemma CutShort(s: seq<digit>, k: nat, w: nat, limit: nat)
    requires Canonical(s) && k < |s| && w < 4 && limit == 4 * k + w && limit > 0
    requires w > 0 && k + 1 == |s| ==> s[k] >= Pow256(w)
    ensures Val(s) >= Pow256(limit)
  {
    hide Val, Pow256, Pow;
    CanonicalByValue(s);
    if w > 0 && k + 1 == |s| {
      ValTop(s);
      AtDef(s[k], k);
      Pow256Digits(k);
      Pow256Add(4 * k, w);
      MulMono(Pow256(w), s[k], Pow(k));
      MulComm(Pow(k), Pow256(w));
    } else {
      Pow256Digits(|s| - 1);
      Pow256Mono(limit, 4 * (|s| - 1));
    }
  }

  lemma LittleTop(t: seq<byte>)
    requires |t| > 0
    ensures t[|t| - 1] >= 128 <==> 2 * Little(t) >= Pow256(|t|)
  {
    hide Little, Pow256;
    var n := |t| - 1;
    var p := Pow256(n);
    assert t == t[..n] + [t[n]];
    LittleConcat(t[..n], [t[n]]);
    LittleOne(t[n]);
    LittleBound(t[..n]);
    Pow256Step(n);
    MulComm(p, t[n]);
    if t[n] >= 128 {
      MulMono(128, t[n], p);
    } else {
      MulMono(t[n], 127, p);
    }
  }

  lemma PadZero(t: seq<byte>)
    ensures Little(t + [0]) == Little(t)
  {
    LittleConcat(t, [0]);
    LittleOne(0);
  }

  lemma PadFits(pos: nat, limit: nat, m: nat, s: seq<byte>)
    requires 0 < pos <= limit && |s| == pos && Little(s) == m && s[pos - 1] < 128
    ensures 2 * m < Pow256(limit)
  {
    hide Little, Pow256;
    LittleTop(s);
    Pow256Mono(pos, limit);
  }

  /** The REV macro. */
  method ReverseBytes(buf: array<byte>, n: nat)
    requires n <= buf.Length
    modifies buf
    ensures forall k :: 0 <= k < n ==> buf[k] == old(buf[n - 1 - k])
    ensures forall k :: n <= k < buf.Length ==> buf[k] == old(buf[k])
  {
    var u, v: int := 0, n - 1;
    while u < v
      invariant 0 <= u && v == n - 1 - u && u <= v + 2
      invariant forall k :: 0 <= k < u ==> buf[k] == old(buf[n - 1 - k]) && buf[n - 1 - k] == old(buf[k])
      invariant forall k :: u <= k <= v ==> buf[k] == old(buf[k])
      invariant forall k :: n <= k < buf.Length ==> buf[k] == old(buf[k])
    {
      buf[u], buf[v] := buf[v], buf[u];
      u, v := u + 1, v - 1;
    }
  }

  // ---- mp_int_to_binary, mp_int_read_binary ----

  /** mp_int_to_binary (imath.c:2102); n is how many bytes it wrote. */
  method ToBinary(z: MpInt, buf: array<byte>, limit: nat) returns (res: MpResult, n: nat)
    requires z.Valid() && 1 <= limit <= buf.Length
    modifies buf
    ensures 1 <= n <= limit && Big(buf[..n]) == z.Value() % Pow256(n)
    ensures res == if 2 * z.Mag() < Pow256(limit) then MP_OK else MP_TRUNC
    ensures res == MP_OK ==> Twos(buf[..n]) == z.Value() && (n == 1 || 2 * z.Mag() >= Pow256(n - 1))
    ensures res == MP_TRUNC ==> n == limit
    ensures forall k :: n <= k < buf.Length ==> buf[k] == old(buf[k])
  {
    hide Val, Run, Canonical, Big, Pow256;
    res, n := ToBin(z, buf, limit);
    TopBitHalf(buf[..n]);
    if z.negative {
      NegativeMod(z.Mag(), Pow256(n));
      TwosComplement(buf, n);
      TopBitHalf(buf[..n]);
    }
  }

  lemma NegativeMod(m: nat, p: nat)
    requires p > 0
    ensures -(m as int) % p == if m % p == 0 then 0 else p - m % p
  {
    var q, r := m / p, m % p;
    assert m == q * p + r;
    MulDist(-q, -1, p);
    if r == 0 {
      DivUnique(-(m as int), p, -q, 0);
    } else {
      DivUnique(-(m as int), p, -q - 1, p - r);
    }
  }

  /** The weights of the bytes of a digit: adding a byte to a number that ends in a zero byte. */
  method OrByte(z: MpInt, dz: array<digit>, b: byte)
    requires z.Valid() && dz == z.digits && z.Mag() % 256 == 0
    modifies dz
    ensures z.Valid() && z.Mag() == old(z.Mag()) + b
  {
    hide Val;
    ghost var s := Run(z.digits, 0, z.used);
    LowByteClear(s);
    dz[0] := dz[0] + b;
    AddLow(s, Run(z.digits, 0, z.used), b);
  }

  lemma LowByteClear(s: seq<digit>)
    requires |s| > 0 && Val(s) % 256 == 0
    ensures s[0] % 256 == 0 && s[0] + 255 < RADIX
  {
    hide Val;
    HeadMod(s, 256, 0x100_0000);
  }

  lemma AddLow(s: seq<digit>, t: seq<digit>, b: byte)
    requires Canonical(s) && |t| == |s| && t[0] == s[0] + b && t[1..] == s[1..]
    ensures Val(t) == Val(s) + b && Canonical(t)
  {
    if |s| > 1 {
      assert t[|t| - 1] == t[1..][|t| - 2] == s[1..][|s| - 2] == s[|s| - 1];
    }
  }

  /** Room for one more byte below a number of i bytes. */
  lemma ByteRoom(s: seq<digit>, i: nat)
    requires Canonical(s) && Val(s) < Pow256(i)
    ensures MulSize(|s|, s[|s| - 1], 8) <= (i + 4) / 4
  {
    hide Val, Pow, Pow256, Pow2, HighBits;
    var n, top := |s| - 1, s[|s| - 1];
    Pow256Digits(n);
    CanonicalByValue(s);
    if n > 0 && i <= 4 * n {
      Pow256Mono(i, 4 * n);
    }
    HighByte(top);
    if HighBits(top, 8) != 0 && i < 4 * n + 4 {
      ValTop(s);
      AtDef(top, n);
      Pow256Add(4 * n, 3);
      MulMono(Pow256(3), top, Pow(n));
      MulComm(Pow(n), Pow256(3));
      Pow256Mono(i, 4 * n + 3);
    }
  }

  lemma HighByte(d: digit)
    ensures HighBits(d, 8) != 0 ==> d >= Pow256(3)
  {
    assert Pow256(3) == 0x100_0000 by {
      assert Pow256(2) == 256 * Pow256(1) && Pow256(1) == 256 * Pow256(0);
    }
    Pow2Byte();
    if d < Pow2(24) {
      DivUnique(d, Pow2(24), 0, d);
    }
  }

  lemma Pow2Byte()
    ensures Pow2(8) == 256 && Pow2(24) == 0x100_0000
  {
    assert Pow2(4) == 16 by { assert Pow2(2) == 4; }
    Pow2Add(4, 4);
    Pow2Add(8, 8);
    Pow2Add(16, 8);
  }

  /** mp_int_read_binary (imath.c:2124).  The buffer is given back as it was, and the pointer
      to the digits that the loop keeps stays good. */
  method ReadBinary(z: MpInt, buf: array<byte>, len: nat)
    requires z.Sized() && 0 < len <= buf.Length
    modifies z, z.digits, buf
    ensures z.Valid() && z.Value() == Twos(old(buf[..len]))
    ensures buf[..] == old(buf[..])
  {
    hide Val, Run, Canonical, Big, Pow256;
    ghost var b0 := buf[..len];
    TopBitHalf(b0);
    z.Pad((len * 8 + 31) / 32);
    z.SetZero();
    var sign := buf[0] >= 128;
    if sign {
      TwosComplement(buf, len);
    }
    ghost var b := buf[..len];
    ReadBytes(z, buf, len);
    z.negative := sign;
    assert buf[..len] == b;
    BigBound(b0);
    if sign {
      TwosComplement(buf, len);
      BigInjective(buf[..len], b0);
    }
    assert forall k :: 0 <= k < buf.Length ==> buf[k] == old(buf[k]) by {
      assert buf[..len] == b0;
    }
  }

  /** Lines 2150-2155. */
  method ReadBytes(z: MpInt, buf: array<byte>, len: nat)
    requires z.Valid() && z.Value() == 0 && !z.negative && 0 < len <= buf.Length
    requires z.digits.Length >= (len * 8 + 31) / 32
    modifies z, z.digits
    ensures z.Valid() && !z.negative && z.Mag() == Big(buf[..len])
  {
    hide Val, Run, Canonical, Big, Pow256, Pow2;
    var dz := z.digits;
    BigEmpty();
    Pow2Byte();
    var i := 0;
    while i < len
      invariant 0 <= i <= len && z.Valid() && !z.negative && z.digits == dz == old(z.digits)
      invariant z.Mag() == Big(buf[..i])
    {
      ghost var t := buf[..i];
      BigBound(t);
      ByteRoom(Run(z.digits, 0, z.used), i);
      QMul(z, 8);
      OrByte(z, dz, buf[i]);
      assert buf[..i + 1] == t + [buf[i]];
      BigSnoc(t, buf[i]);
      i := i + 1;
    }
  }

  lemma BigSnoc(t: seq<byte>, d: byte)
    ensures Big(t + [d]) == 256 * Big(t) + d
  {
    assert (t + [d])[..|t|] == t;
  }

  lemma {:induction false} BigInjective(s: seq<byte>, t: seq<byte>)
    requires |s| == |t| && Big(s) == Big(t)
    ensures s == t
  {
    if |s| > 0 {
      var n := |s| - 1;
      BigInjective(s[..n], t[..n]);
      assert s == s[..n] + [s[n]] && t == t[..n] + [t[n]];
    }
  }

  /** What is written when MP_OK is reported is read back as the number it came from. */
  method RoundTrip(z: MpInt, buf: array<byte>, limit: nat, w: MpInt) returns (res: MpResult)
    requires z.Valid() && w.Valid() && Apart(z, w) && 1 <= limit <= buf.Length
    modifies buf, w, w.digits
    ensures res == if 2 * old(z.Mag()) < Pow256(limit) then MP_OK else MP_TRUNC
    ensures res == MP_OK ==> w.Valid() && w.Value() == old(z.Value())
  {
    hide Val, Run, Canonical, Big, Pow256, Twos;
    var n;
    res, n := ToBinary(z, buf, limit);
    if res == MP_OK {
      ReadBinary(w, buf, n);
    }
  }
}
