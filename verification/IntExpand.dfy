/** The expansion of a compressed key (g_int_decompress in contrib/intarray/_int_gist.c, and
    internal_size in _int_tool.c).
 */
module IntExpand {
  import opened IntArrays
  import opened IntKeys

  /** Ranges that may also touch: one may end where the next begins. */
  ghost predicate WeakRanges(d: seq<int32>) {
    |d| % 2 == 0 && forall i :: 0 <= i < |d| - 1 ==> d[i] <= d[i + 1]
  }

  predicate Touches(d: seq<int32>, i: nat)
    requires i < |d|
  {
    i > 0 && d[i] == d[i - 1]
  }

  function Length(lo: int32, hi: int32): int {
    hi as int - lo as int + 1
  }

  /** How many numbers the first n bounds stand for. */
  function Written(d: seq<int32>, n: nat): int
    requires n <= |d|
  {
    if n < 2 then 0
    else Written(d, n - 2) + Length(d[n - 2], d[n - 1]) - if Touches(d, n - 2) then 1 else 0
  }

  /** How many internal_size counts: a touching range counts for nothing. */
  function Counted(d: seq<int32>, n: nat): int
    requires n <= |d|
  {
    if n < 2 then 0
    else Counted(d, n - 2) + if Touches(d, n - 2) then 0 else Length(d[n - 2], d[n - 1])
  }

  ghost predicate TouchingArePoints(d: seq<int32>, n: nat)
    requires n <= |d|
  {
    forall i :: 0 <= i < n - 1 && i % 2 == 0 && Touches(d, i) ==> d[i] == d[i + 1]
  }

  /** internal_size is right exactly when every range that touches the one before is a point. */
  lemma {:induction false} CountedExact(d: seq<int32>, n: nat)
    requires WeakRanges(d) && n <= |d| && n % 2 == 0
    ensures Counted(d, n) <= Written(d, n)
    ensures Counted(d, n) == Written(d, n) <==> TouchingArePoints(d, n)
  {
    hide WeakRanges, TouchingArePoints;
    if n < 2 {
      PointsMore(d, n);
    } else {
      CountedExact(d, n - 2);
      Ordered(d, n - 2);
      PointsMore(d, n - 2);
    }
  }

  lemma Ordered(d: seq<int32>, i: nat)
    requires WeakRanges(d) && i + 1 < |d|
    ensures d[i] <= d[i + 1]
  {
  }

  lemma PointsMore(d: seq<int32>, n: nat)
    requires n <= |d| && n % 2 == 0
    ensures n == 0 ==> TouchingArePoints(d, n)
    ensures n + 2 <= |d| ==>
              (TouchingArePoints(d, n + 2) <==>
               TouchingArePoints(d, n) && (Touches(d, n) ==> d[n] == d[n + 1]))
  {
  }

  lemma WrapAdd(x: int, y: int)
    ensures Wrap32(Wrap32(x) + y) == Wrap32(x + y)
  {
    var k := (x + 0x8000_0000) / 0x1_0000_0000;
    assert Wrap32(x) == x - k * 0x1_0000_0000;
    WrapShift(x + y, k);
  }

  lemma WrapShift(x: int, k: int)
    ensures Wrap32(x - k * 0x1_0000_0000) == Wrap32(x)
  {
    var m, t := 0x1_0000_0000, x + 0x8000_0000;
    assert t == t / m * m + t % m;
    assert t - k * m == (t / m - k) * m + t % m;
    ModUnique(t - k * m, t / m - k, t % m, m);
  }

  lemma ModUnique(t: int, q: int, r: int, m: int)
    requires m > 0 && 0 <= r < m && t == q * m + r
    ensures t % m == r
  {
    var q', r' := t / m, t % m;
    assert t == q' * m + r';
    Multiple(q' - q, m);
    Multiple(q - q', m);
    assert (q' - q) * m == q' * m - q * m;
    assert (q - q') * m == q * m - q' * m;
  }

  lemma Multiple(k: int, m: int)
    requires m > 0
    ensures k > 0 ==> k * m >= m
  {
  }

  /** internal_size (_int_tool.c:264-276), in 32-bit arithmetic throughout. */
  method InternalSize(a: seq<int32>) returns (size: int32)
    requires |a| % 2 == 0
    ensures size == Wrap32(Counted(a, |a|))
  {
    hide Wrap32;
    size := 0;
    var i := 0;
    assert Wrap32(0) == 0;
    while i < |a|
      invariant 0 <= i <= |a| && i % 2 == 0
      invariant size == Wrap32(Counted(a, i))
    {
      if !Touches(a, i) {
        var d: int := a[i + 1] as int - a[i] as int;
        WrapAdd(d, 1);
        WrapAdd(d + 1, Counted(a, i));
        WrapAdd(Counted(a, i), Wrap32(d + 1));
        size := Wrap32(size + Wrap32(Wrap32(d) + 1));
      }
      i := i + 2;
    }
  }

  // ---- The loop over one range ----

  /** The counter j of line 269 after n increments of an int. */
  function Counter(lo: int32, n: nat): int32 {
    if n == 0 then lo else Wrap32(Counter(lo, n - 1) + 1)
  }

  ghost predicate LoopEnds(lo: int32, hi: int32) {
    exists n: nat :: Counter(lo, n) > hi
  }

  /** The loop of line 269 ends exactly when the upper bound is not the greatest int. */
  lemma RangeLoopEnds(lo: int32, hi: int32)
    requires lo <= hi
    ensures LoopEnds(lo, hi) <==> hi < MAX_INT
  {
    if hi < MAX_INT {
      CounterRuns(lo, hi - lo + 1);
      assert Counter(lo, hi - lo + 1) > hi;
    }
  }

  lemma {:induction false} CounterRuns(lo: int32, n: int)
    requires 0 <= n && lo + n <= MAX_INT
    ensures Counter(lo, n) == lo + n
    decreases n
  {
    if n > 0 {
      CounterRuns(lo, n - 1);
    }
  }

  ghost function Span(lo: int, hi: int): (r: seq<int32>)
    requires MIN_INT <= lo <= hi + 1 && hi <= MAX_INT
    ensures |r| == hi - lo + 1
  {
    seq(hi - lo + 1, k requires 0 <= k < hi - lo + 1 => lo + k)
  }

  /** Lines 269-271: j runs over the range and is skipped where it was just written. */
  method WriteRange(r: array<int32>, dr0: nat, first: bool, lo: int32, hi: int32) returns (dr: nat)
    requires lo <= hi < MAX_INT && dr0 <= r.Length
    requires first || (dr0 > 0 && r[dr0 - 1] <= lo)
    requires dr0 + Length(lo, hi) - (if !first && r[dr0 - 1] == lo then 1 else 0) <= r.Length
    modifies r
    ensures dr <= r.Length
    ensures r[..dr] == old(r[..dr0]) + Span(if !first && old(r[dr0 - 1]) == lo then lo as int + 1 else lo, hi)
  {
    ghost var before := r[..dr0];
    ghost var from: int := if !first && r[dr0 - 1] == lo then lo as int + 1 else lo;
    dr := dr0;
    var j := lo;
    while j <= hi
      invariant lo <= j <= hi + 1
      invariant dr0 <= dr <= r.Length && dr == dr0 + if j < from then 0 else j - from
      invariant j == lo ==> r[..] == old(r[..])
      invariant j > lo ==> dr > 0 && r[dr - 1] == j - 1
      invariant r[..dr] == before + Span(from, if j < from then from - 1 else j as int - 1)
      decreases hi - j
    {
      if first || r[dr - 1] != j {
        r[dr] := j;
        dr := dr + 1;
        assert r[..dr] == before + (Span(from, j as int - 1) + [j]);
        assert Span(from, j as int - 1) + [j] == Span(from, j);
      }
      j := Wrap32(j + 1);
    }
  }

  lemma SpanStrict(s: seq<int32>, lo: int, hi: int32)
    requires Strict(s) && MIN_INT <= lo <= hi as int + 1
    requires |s| > 0 ==> s[|s| - 1] < lo
    ensures Strict(s + Span(lo, hi))
  {
  }

  lemma SpanMembers(s: seq<int32>, lo: int, hi: int32, x: int32)
    requires MIN_INT <= lo <= hi as int + 1
    ensures x in s + Span(lo, hi) <==> x in s || lo <= x <= hi
  {
    var t := Span(lo, hi);
    if lo <= x <= hi {
      assert t[x - lo] == x;
    }
    assert x in s + t <==> x in s || x in t;
  }

  // ---- The whole expansion ----

  /** What the first n bounds have been expanded to. */
  ghost predicate Expanded(d: seq<int32>, n: nat, s: seq<int32>)
    requires n <= |d|
  {
    && Strict(s) && |s| == Written(d, n)
    && (n > 0 ==> |s| > 0 && s[|s| - 1] == d[n - 1])
    && forall x: int32 :: x in s <==> Covered(d[..n], x)
  }

  lemma ExpandedStart(d: seq<int32>)
    ensures Expanded(d, 0, [])
  {
  }

  lemma ExpandedStep(d: seq<int32>, n: nat, s: seq<int32>)
    requires WeakRanges(d) && n + 2 <= |d| && n % 2 == 0 && Expanded(d, n, s)
    ensures Expanded(d, n + 2, s + Span(if Touches(d, n) then d[n] as int + 1 else d[n], d[n + 1]))
  {
    var lo: int := if Touches(d, n) then d[n] as int + 1 else d[n];
    assert d[n] <= d[n + 1];
    assert n > 0 ==> d[n - 1] <= d[n - 1 + 1];
    var s' := s + Span(lo, d[n + 1]);
    SpanStrict(s, lo, d[n + 1]);
    assert Written(d, n + 2) == Written(d, n) + Length(d[n], d[n + 1]) - if Touches(d, n) then 1 else 0;
    if |Span(lo, d[n + 1])| == 0 {
      assert s' == s && s[|s| - 1] == d[n + 1];
    }
    forall x: int32
      ensures x in s' <==> Covered(d[..n + 2], x)
    {
      SpanMembers(s, lo, d[n + 1], x);
      CoveredMore(d, n, x);
      if n > 0 && Touches(d, n) && x == d[n] {
        assert s[|s| - 1] == x;
      }
    }
  }

  lemma CoveredMore(d: seq<int32>, n: nat, x: int)
    requires n + 2 <= |d| && n % 2 == 0
    ensures Covered(d[..n + 2], x) <==> Covered(d[..n], x) || d[n] <= x <= d[n + 1]
  {
    var e, f := d[..n + 2], d[..n];
    if Covered(e, x) {
      var i :| 0 <= i < |e| - 1 && i % 2 == 0 && e[i] <= x <= e[i + 1];
      if i < n {
        CoveredAt(f, i, x);
      }
    }
    if Covered(f, x) {
      var i :| 0 <= i < |f| - 1 && i % 2 == 0 && f[i] <= x <= f[i + 1];
      CoveredAt(e, i, x);
    }
    if d[n] <= x <= d[n + 1] {
      CoveredAt(e, n, x);
    }
  }

  /** Every run of the inner loop ends. */
  ghost predicate AllLoopsEnd(d: seq<int32>) {
    forall i :: 0 <= i < |d| - 1 && i % 2 == 0 ==> LoopEnds(d[i], d[i + 1])
  }

  /** Only the last range can reach the greatest int, so all loops end exactly when it does not. */
  lemma LoopsEndExactly(d: seq<int32>)
    requires Ranges(d) && |d| > 0
    ensures AllLoopsEnd(d) <==> d[|d| - 1] < MAX_INT
  {
    hide LoopEnds;
    var n := |d| - 2;
    assert d[n] <= d[n + 1];
    RangeLoopEnds(d[n], d[n + 1]);
    forall i | 0 <= i < n && i % 2 == 0
      ensures LoopEnds(d[i], d[i + 1])
    {
      assert d[i] <= d[i + 1] < d[i + 1 + 1];
      RangeLoopEnds(d[i], d[i + 1]);
    }
  }

  /** A key the expansion can handle: proper ranges over which the loops end, and whose count
      fits an int. */
  ghost predicate Expandable(d: seq<int32>) {
    && |d| > 0 && WeakRanges(d) && TouchingArePoints(d, |d|)
    && Counted(d, |d|) <= MAX_INT && AllLoopsEnd(d)
  }

  /** Lines 262-271. */
  method Expand(din: seq<int32>) returns (r: array<int32>)
    requires Expandable(din)
    ensures fresh(r) && Expanded(din, |din|, r[..])
  {
    hide Expanded, Covered, Wrap32, Touches, TouchingArePoints, LoopEnds;
    var lenr := InternalSize(din);
    CountedExact(din, |din|);
    WrittenGrows(din, 0, |din|);
    r := new int32[lenr];
    var i: nat, dr: nat := 0, 0;
    ExpandedStart(din);
    while i < |din|
      invariant 0 <= i <= |din| && i % 2 == 0
      invariant dr <= r.Length && Expanded(din, i, r[..dr])
    {
      ghost var s := r[..dr];
      ExpandedFacts(din, i, s);
      RangeFits(din, i);
      Ordered(din, i);
      RangeLoopEnds(din[i], din[i + 1]);
      dr := WriteRange(r, dr, i == 0, din[i], din[i + 1]);
      ExpandedStep(din, i, s);
      i := i + 2;
    }
    ExpandedFacts(din, |din|, r[..dr]);
    assert r[..dr] == r[..];
  }

  lemma ExpandedFacts(d: seq<int32>, n: nat, s: seq<int32>)
    requires n <= |d| && Expanded(d, n, s) && WeakRanges(d)
    ensures |s| == Written(d, n) && (n > 0 ==> |s| > 0 && s[|s| - 1] == d[n - 1])
    ensures 0 < n < |d| ==> s[|s| - 1] <= d[n] && (Touches(d, n) <==> s[|s| - 1] == d[n])
    ensures n == 0 ==> |s| == 0
    ensures n == 0 < |d| ==> !Touches(d, n)
  {
    assert 0 < n < |d| ==> d[n - 1] <= d[n - 1 + 1];
  }

  lemma {:induction false} WrittenGrows(d: seq<int32>, k: nat, n: nat)
    requires WeakRanges(d) && k <= n <= |d| && k % 2 == 0 && n % 2 == 0
    ensures Written(d, k) <= Written(d, n)
    decreases n
  {
    hide WeakRanges;
    if k < n {
      WrittenGrows(d, k, n - 2);
      Ordered(d, n - 2);
    }
  }

  /** There is room for the next range. */
  lemma RangeFits(d: seq<int32>, n: nat)
    requires WeakRanges(d) && n + 2 <= |d| && n % 2 == 0
    ensures Written(d, n) + Length(d[n], d[n + 1]) - (if Touches(d, n) then 1 else 0) <= Written(d, |d|)
  {
    hide Length, Touches;
    WrittenGrows(d, n + 2, |d|);
  }

  /** g_int_decompress (lines 217-280): fewer than 200 elements are taken as they are. */
  method Decompress(key: seq<int32>) returns (r: array<int32>)
    requires |key| >= 2 * MAX_RANGES ==> Expandable(key)
    ensures fresh(r)
    ensures |key| < 2 * MAX_RANGES ==> r[..] == key
    ensures |key| >= 2 * MAX_RANGES ==> Expanded(key, |key|, r[..])
  {
    if |key| < 2 * MAX_RANGES {
      r := new int32[|key|];
      CopyIn(r, 0, key);
      assert r[..|key|] == r[..];
    } else {
      r := Expand(key);
    }
  }

  // ---- Compression and expansion together ----

  /** All loops over the ranges of a compressed key end if and only if the greatest element of
      the key is not the greatest int; then the key can be expanded if the count fits an int. */
  lemma CompressedExpandable(key: seq<int32>, d: seq<int32>)
    requires Strict(key) && |key| >= 2 * MAX_RANGES && Compressed(key, d)
    ensures AllLoopsEnd(d) <==> key[|key| - 1] < MAX_INT
    ensures Counted(d, |d|) <= MAX_INT ==> (Expandable(d) <==> key[|key| - 1] < MAX_INT)
  {
    CompressedCovers(key, d);
    RangesExpandable(d);
    LoopsEndExactly(d);
  }

  lemma RangesExpandable(d: seq<int32>)
    requires Ranges(d) && |d| > 0
    ensures WeakRanges(d) && TouchingArePoints(d, |d|)
  {
    forall i | 0 < i < |d| - 1 && i % 2 == 0
      ensures !Touches(d, i)
    {
      assert d[i - 1] < d[i - 1 + 1];
    }
  }

  /** Compression followed by expansion only widens: the result is strictly sorted, holds every
      element of the key, and starts and ends where the key does. */
  lemma OnlyWidens(key: seq<int32>, d: seq<int32>, r: seq<int32>)
    requires Strict(key) && Compressed(key, d)
    requires if |d| < 2 * MAX_RANGES then r == d else Expanded(d, |d|, r)
    ensures Strict(r) && Subset(key, r) && |r| >= |key|
    ensures |key| > 0 ==> r[|r| - 1] == key[|key| - 1]
    ensures |key| < 2 * MAX_RANGES ==> r == key
  {
    if |key| >= 2 * MAX_RANGES {
      CompressedCovers(key, d);
      assert d[..|d|] == d;
      forall x: int32 | x in key
        ensures x in r
      {
      }
      StrictLength(key, r);
    }
  }

  /** A strictly sorted array is at least as long as any other whose members it holds. */
  lemma {:induction false} StrictLength(s: seq<int32>, t: seq<int32>)
    requires Strict(s) && Strict(t) && Subset(s, t)
    ensures |s| <= |t|
  {
    Inhabited(s);
    if |s| > 0 {
      var x := s[|s| - 1];
      assert x in t;
      var k :| 0 <= k < |t| && t[k] == x;
      forall y: int32 | y in s[..|s| - 1]
        ensures y in t[..k]
      {
        var i :| 0 <= i < |s| - 1 && s[i] == y;
        assert y in s && y in t;
        var j :| 0 <= j < |t| && t[j] == y;
        assert j < k;
      }
      StrictLength(s[..|s| - 1], t[..k]);
    }
  }

  ghost predicate Neighbours(key: seq<int32>) {
    forall i :: 0 <= i < |key| - 1 && i % 2 == 0 ==> key[i + 1] == key[i] as int + 1
  }

  /** Leaf keys are never compressed, but one with 200 or more elements is still expanded as if
      it were ranges.  It survives exactly when its elements come in pairs of neighbours. */
  lemma BigLeafKept(key: seq<int32>, r: seq<int32>)
    requires Strict(key) && |key| % 2 == 0 && Expanded(key, |key|, r)
    ensures r == key <==> Neighbours(key)
  {
    assert key[..|key|] == key;
    if Neighbours(key) {
      NeighboursKept(key, r);
    } else {
      var i :| 0 <= i < |key| - 1 && i % 2 == 0 && key[i + 1] != key[i] as int + 1;
      assert key[i] < key[i + 1];
      CoveredAt(key, i, key[i] + 1);
      NotMember(key, i, key[i] + 1);
    }
  }

  lemma NeighboursKept(key: seq<int32>, r: seq<int32>)
    requires Strict(key) && |key| % 2 == 0 && Neighbours(key)
    requires Strict(r) && forall x: int32 :: x in r <==> Covered(key, x)
    ensures r == key
  {
    hide Strict, Covered, Neighbours;
    forall x: int32
      ensures x in r <==> x in key
    {
      NeighboursCovered(key, x);
    }
    StrictUnique(r, key);
  }

  lemma NeighboursCovered(key: seq<int32>, x: int32)
    requires Strict(key) && |key| % 2 == 0 && Neighbours(key)
    ensures Covered(key, x) <==> x in key
  {
    if Covered(key, x) {
      var i :| 0 <= i < |key| - 1 && i % 2 == 0 && key[i] <= x <= key[i + 1];
      assert key[i + 1] == key[i] as int + 1;
      assert key[i] in key && key[i + 1] in key;
    }
    if x in key {
      var k :| 0 <= k < |key| && key[k] == x;
      if k % 2 == 0 {
        assert key[k] < key[k + 1];
        CoveredAt(key, k, x);
      } else {
        assert key[k - 1] < key[k];
        CoveredAt(key, k - 1, x);
      }
    }
  }

  lemma NotMember(key: seq<int32>, i: nat, x: int32)
    requires Strict(key) && i + 1 < |key| && key[i] < x < key[i + 1]
    ensures x !in key
  {
    forall k | 0 <= k < |key|
      ensures key[k] != x
    {
      assert k <= i ==> key[k] <= key[i];
      assert k > i ==> key[i + 1] <= key[k];
    }
  }
}
