/** Index keys of gist__int_ops (contrib/intarray/_int_gist.c): the union of keys, the
    compression of an internal key to 100 ranges, and its expansion to a superset.
 */
module IntKeys {
  import opened IntArrays

  /** MAXNUMRANGE (_int.h:17). */
  const MAX_RANGES: nat := 100

  // ---- g_int_union ----

  ghost predicate InSome(x: int32, entries: seq<seq<int32>>) {
    exists k :: 0 <= k < |entries| && x in entries[k]
  }

  function Total(entries: seq<seq<int32>>): nat {
    if |entries| == 0 then 0 else Total(entries[..|entries| - 1]) + |entries[|entries| - 1]|
  }

  ghost function Concat(entries: seq<seq<int32>>): (r: seq<int32>)
    ensures |r| == Total(entries)
  {
    if |entries| == 0 then [] else Concat(entries[..|entries| - 1]) + entries[|entries| - 1]
  }

  lemma {:induction false} ConcatMembers(entries: seq<seq<int32>>, x: int32)
    ensures x in Concat(entries) <==> InSome(x, entries)
  {
    if |entries| > 0 {
      var n := |entries| - 1;
      ConcatMembers(entries[..n], x);
      if k :| 0 <= k < |entries| && x in entries[k] {
        assert k < n ==> x in entries[..n][k];
      }
      if InSome(x, entries[..n]) {
        var k :| 0 <= k < n && x in entries[..n][k];
        assert x in entries[k];
      }
    }
  }

  lemma {:induction false} TotalGrows(entries: seq<seq<int32>>, k: nat)
    requires k < |entries|
    ensures Total(entries[..k]) + |entries[k]| <= Total(entries)
    ensures Total(entries[..k + 1]) == Total(entries[..k]) + |entries[k]|
  {
    assert entries[..k + 1][..k] == entries[..k];
    if k < |entries| - 1 {
      var n := |entries| - 1;
      TotalGrows(entries[..n], k);
      assert entries[..n][..k] == entries[..k];
    } else {
      assert entries[..k + 1] == entries;
    }
  }

  /** Lines 107-126: all entries one after the other. */
  method ConcatAll(entries: seq<seq<int32>>) returns (res: array<int32>)
    ensures fresh(res) && res[..] == Concat(entries)
  {
    var totlen := 0;
    for i := 0 to |entries|
      invariant totlen == Total(entries[..i])
    {
      TotalGrows(entries, i);
      totlen := totlen + |entries[i]|;
    }
    assert entries[..|entries|] == entries;
    res := new int32[totlen];
    var ptr := 0;
    for i := 0 to |entries|
      invariant ptr == Total(entries[..i]) <= totlen
      invariant res[..ptr] == Concat(entries[..i])
    {
      TotalGrows(entries, i);
      assert entries[..i + 1][..i] == entries[..i];
      CopyIn(res, ptr, entries[i]);
      ptr := ptr + |entries[i]|;
    }
    assert res[..ptr] == res[..];
  }

  method CopyIn(res: array<int32>, ptr: nat, ent: seq<int32>)
    requires ptr + |ent| <= res.Length
    modifies res
    ensures res[..ptr + |ent|] == old(res[..ptr]) + ent
  {
    ghost var before := res[..ptr];
    for k := 0 to |ent|
      invariant res[..ptr + k] == before + ent[..k]
    {
      res[ptr + k] := ent[k];
      assert res[..ptr + k + 1] == res[..ptr + k] + [ent[k]];
      assert ent[..k + 1] == ent[..k] + [ent[k]];
    }
  }

  /** g_int_union (lines 97-132): the strictly sorted array of everything in some entry. */
  method Union(entries: seq<seq<int32>>) returns (res: array<int32>, n: nat)
    ensures fresh(res) && n <= res.Length && Strict(res[..n])
    ensures forall x: int32 :: x in res[..n] <==> InSome(x, entries)
  {
    hide Concat, Total, InSome, Strict, Sorted;
    res := ConcatAll(entries);
    ghost var all := res[..];
    var _ := ISort(res);
    SameBag(res[..], all);
    assert res[..res.Length] == res[..];
    n := Unique(res, res.Length);
    forall x: int32
      ensures x in res[..n] <==> InSome(x, entries)
    {
      ConcatMembers(entries, x);
    }
  }

  // ---- Ranges ----

  /** Pairs of bounds, each range above the one before. */
  ghost predicate Ranges(d: seq<int32>) {
    && |d| % 2 == 0
    && (forall i :: 0 <= i < |d| - 1 ==> if i % 2 == 0 then d[i] <= d[i + 1] else d[i] < d[i + 1])
  }

  ghost predicate Covered(d: seq<int32>, x: int) {
    exists i :: 0 <= i < |d| - 1 && i % 2 == 0 && d[i] <= x <= d[i + 1]
  }

  ghost predicate Covers(d: seq<int32>, key: seq<int32>) {
    forall x: int32 :: x in key ==> Covered(d, x)
  }

  /** Each element as a range of its own. */
  ghost function Doubled(key: seq<int32>): (r: seq<int32>)
    ensures |r| == 2 * |key|
  {
    seq(2 * |key|, i requires 0 <= i < 2 * |key| => key[i / 2])
  }

  lemma DoubledRanges(key: seq<int32>)
    requires Strict(key)
    ensures Ranges(Doubled(key)) && Covers(Doubled(key), key)
  {
    var d := Doubled(key);
    forall x: int32 | x in key
      ensures Covered(d, x)
    {
      var k :| 0 <= k < |key| && key[k] == x;
      assert d[2 * k] <= x <= d[2 * k + 1];
    }
  }

  /** Lines 188-189: in place from the end, so that nothing is read after it is overwritten. */
  method Double(dr: array<int32>, len: nat)
    requires 2 * len <= dr.Length
    modifies dr
    ensures dr[..2 * len] == Doubled(old(dr[..len]))
  {
    ghost var key := dr[..len];
    var i := len;
    while i > 0
      invariant 0 <= i <= len
      invariant forall k :: 0 <= k < i ==> dr[k] == key[k]
      invariant forall k :: 2 * i <= k < 2 * len ==> dr[k] == key[k / 2]
    {
      i := i - 1;
      dr[2 * i + 1] := dr[i];
      dr[2 * i] := dr[2 * i + 1];
    }
  }

  /** The two ranges around position c (even) become one. */
  ghost function Merged(d: seq<int32>, c: nat): seq<int32>
    requires 2 <= c < |d|
  {
    d[..c - 1] + d[c + 1..]
  }

  lemma MergedRanges(d: seq<int32>, c: nat)
    requires Ranges(d) && 2 <= c < |d| && c % 2 == 0
    ensures Ranges(Merged(d, c))
    ensures Merged(d, c)[0] == d[0] && Merged(d, c)[|d| - 3] == d[|d| - 1]
  {
    var m := Merged(d, c);
    forall i | 0 <= i < |m| - 1
      ensures if i % 2 == 0 then m[i] <= m[i + 1] else m[i] < m[i + 1]
    {
      if i == c - 2 {
        assert d[c - 2] <= d[c - 1] < d[c] <= d[c + 1];
      }
    }
  }

  lemma CoveredAt(d: seq<int32>, i: nat, x: int)
    requires i + 1 < |d| && i % 2 == 0 && d[i] <= x <= d[i + 1]
    ensures Covered(d, x)
  {
  }

  /** Merging only widens: it adds what lies between the two ranges and takes nothing away. */
  lemma MergedCovers(d: seq<int32>, c: nat, x: int)
    requires Ranges(d) && 2 <= c < |d| && c % 2 == 0
    ensures Covered(Merged(d, c), x) <==> Covered(d, x) || d[c - 1] < x < d[c]
  {
    assert d[c - 2] <= d[c - 2 + 1] < d[c - 1 + 1] <= d[c + 1];
    MergedKeeps(d, c, x);
    MergedAdds(d, c, x);
  }

  lemma MergedKeeps(d: seq<int32>, c: nat, x: int)
    requires 2 <= c < |d| - 1 && c % 2 == 0 && |d| % 2 == 0
    requires d[c - 2] <= d[c - 1] <= d[c] <= d[c + 1]
    ensures Covered(d, x) ==> Covered(Merged(d, c), x)
    ensures d[c - 1] < x < d[c] ==> Covered(Merged(d, c), x)
  {
    var m := Merged(d, c);
    if Covered(d, x) {
      var i :| 0 <= i < |d| - 1 && i % 2 == 0 && d[i] <= x <= d[i + 1];
      CoveredAt(m, if i < c then i else i - 2, x);
    } else if d[c - 1] < x < d[c] {
      CoveredAt(m, c - 2, x);
    }
  }

  lemma MergedAdds(d: seq<int32>, c: nat, x: int)
    requires 2 <= c < |d| - 1 && c % 2 == 0 && |d| % 2 == 0
    requires d[c - 2] <= d[c - 1] <= d[c] <= d[c + 1]
    ensures Covered(Merged(d, c), x) ==> Covered(d, x) || d[c - 1] < x < d[c]
  {
    var m := Merged(d, c);
    if Covered(m, x) {
      var i :| 0 <= i < |m| - 1 && i % 2 == 0 && m[i] <= x <= m[i + 1];
      if i < c - 2 {
        CoveredAt(d, i, x);
      } else if i > c - 2 {
        CoveredAt(d, i + 2, x);
      } else if x <= d[c - 1] {
        CoveredAt(d, c - 2, x);
      } else if d[c] <= x {
        CoveredAt(d, c, x);
      }
    }
  }

  // ---- The choice of the pair to merge ----

  function Distance(d: seq<int32>, i: nat): int
    requires 0 < i < |d|
  {
    d[i] as int - d[i - 1] as int
  }

  /** The distance as a 32-bit subtraction gives it. */
  function Gap(d: seq<int32>, i: nat): int32
    requires 0 < i < |d|
  {
    Wrap32(Distance(d, i))
  }

  /** m pairs that are all at least g apart span (m - 1) * g. */
  lemma {:induction false} GapsAddUp(d: seq<int32>, m: nat, g: nat)
    requires Ranges(d) && 0 < m && 2 * m <= |d|
    requires forall i :: 2 <= i < 2 * m && i % 2 == 0 ==> Distance(d, i) >= g
    ensures d[2 * m - 1] as int - d[0] as int >= (m - 1) * g
    decreases m
  {
    if m > 1 {
      GapsAddUp(d, m - 1, g);
      assert Distance(d, 2 * m - 2) >= g;
      assert (m - 1) * g == (m - 2) * g + g;
    }
  }

  /** With more than 100 ranges some gap is small, so that the search finds a candidate. */
  lemma SomeGapSmall(d: seq<int32>)
    requires Ranges(d) && |d| > 2 * MAX_RANGES
    ensures exists i :: 2 <= i < |d| && i % 2 == 0 && 0 < Distance(d, i) < MAX_INT
  {
    hide Ranges, Distance;
    SomeGapNotWide(d);
    GapPositive(d);
  }

  lemma SomeGapNotWide(d: seq<int32>)
    requires Ranges(d) && |d| > 2 * MAX_RANGES
    ensures exists i :: 2 <= i < |d| && i % 2 == 0 && Distance(d, i) < MAX_INT
  {
    hide Ranges, Distance;
    var m := |d| / 2;
    assert (m - 1) * MAX_INT >= 3 * MAX_INT;
    if forall i :: 2 <= i < 2 * m && i % 2 == 0 ==> Distance(d, i) >= MAX_INT {
      GapsAddUp(d, m, MAX_INT);
    }
  }

  lemma SomeCandidate(d: seq<int32>)
    requires Ranges(d) && |d| > 2 * MAX_RANGES
    ensures exists i :: 2 <= i < |d| && i % 2 == 0 && Gap(d, i) < MAX_INT
  {
    SomeGapSmall(d);
    var i :| 2 <= i < |d| && i % 2 == 0 && 0 < Distance(d, i) < MAX_INT;
    assert Gap(d, i) < MAX_INT;
  }

  lemma GapAt(d: seq<int32>, i: nat)
    requires 0 < i < |d|
    ensures Gap(d, i) == Wrap32(d[i] as int - d[i - 1] as int)
  {
  }

  /** Lines 195-201: the first of the smallest gaps. */
  method FindGap(dr: array<int32>, len: nat, cand0: nat) returns (cand: nat)
    requires len <= dr.Length && len > 2 * MAX_RANGES && Ranges(dr[..len])
    ensures 2 <= cand < len && cand % 2 == 0
    ensures forall i :: 2 <= i < len && i % 2 == 0 ==> Gap(dr[..len], cand) <= Gap(dr[..len], i)
    ensures forall i :: 2 <= i < cand && i % 2 == 0 ==> Gap(dr[..len], cand) < Gap(dr[..len], i)
  {
    hide Wrap32, Gap, Distance, Ranges;
    ghost var d := dr[..len];
    SomeCandidate(d);
    var min := MAX_INT;
    cand := cand0;
    var i := 2;
    while i < len
      invariant 2 <= i && i % 2 == 0
      invariant min < MAX_INT ==> 2 <= cand < i && cand % 2 == 0 && cand < len && min == Gap(d, cand)
      invariant min <= MAX_INT
      invariant forall k :: 2 <= k < i && k < len && k % 2 == 0 ==> min <= Gap(d, k)
      invariant min < MAX_INT ==> forall k :: 2 <= k < cand && k % 2 == 0 ==> min < Gap(d, k)
    {
      GapAt(d, i);
      if min > Wrap32(dr[i] as int - dr[i - 1] as int) {
        min := Wrap32(dr[i] as int - dr[i - 1] as int);
        cand := i;
      }
      i := i + 2;
    }
  }

  /** No two neighbouring ranges are 2^31 or more apart: no distance wraps around. */
  ghost predicate NoWrap(d: seq<int32>) {
    forall i :: 2 <= i < |d| && i % 2 == 0 ==> Distance(d, i) <= MAX_INT
  }

  /** The chosen gap is the smallest one exactly when no gap wraps; otherwise it is the one
      that does, which is the largest of all. */
  lemma SmallestGap(d: seq<int32>, cand: nat)
    requires Ranges(d) && |d| > 2 * MAX_RANGES && 2 <= cand < |d| && cand % 2 == 0
    requires forall i :: 2 <= i < |d| && i % 2 == 0 ==> Gap(d, cand) <= Gap(d, i)
    ensures (forall i :: 2 <= i < |d| && i % 2 == 0 ==> Distance(d, cand) <= Distance(d, i)) <==> NoWrap(d)
    ensures !NoWrap(d) ==> forall i :: 2 <= i < |d| && i % 2 == 0 ==> Distance(d, i) <= Distance(d, cand)
  {
    GapPositive(d);
    SomeGapSmall(d);
    var small :| 2 <= small < |d| && small % 2 == 0 && 0 < Distance(d, small) < MAX_INT;
    if !NoWrap(d) {
      var big :| 2 <= big < |d| && big % 2 == 0 && Distance(d, big) > MAX_INT;
      assert Gap(d, big) < 0;
      assert Distance(d, cand) > MAX_INT;
      assert !(Distance(d, cand) <= Distance(d, small));
      forall i | 2 <= i < |d| && i % 2 == 0
        ensures Distance(d, i) <= Distance(d, cand)
      {
        OneWrap(d, cand, i);
      }
    } else {
      forall i | 2 <= i < |d| && i % 2 == 0
        ensures Distance(d, cand) <= Distance(d, i)
      {
        assert Gap(d, cand) <= Gap(d, i);
      }
    }
  }

  lemma GapPositive(d: seq<int32>)
    requires Ranges(d)
    ensures forall i :: 2 <= i < |d| && i % 2 == 0 ==> 0 < Distance(d, i) < 0x1_0000_0000
  {
    forall i | 2 <= i < |d| && i % 2 == 0
      ensures 0 < Distance(d, i) < 0x1_0000_0000
    {
      assert d[i - 1] < d[i - 1 + 1];
    }
  }

  lemma {:induction false} RangesSorted(d: seq<int32>, i: nat, j: nat)
    requires Ranges(d) && i <= j < |d|
    ensures d[i] <= d[j]
    decreases j - i
  {
    if i < j {
      RangesSorted(d, i, j - 1);
      assert d[j - 1] <= d[j - 1 + 1];
    }
  }

  lemma OneWrap(d: seq<int32>, i: nat, j: nat)
    requires Ranges(d) && 2 <= i < |d| && 2 <= j < |d| && i % 2 == 0 && j % 2 == 0
    requires Distance(d, i) > MAX_INT
    ensures Distance(d, j) <= Distance(d, i)
  {
    if i < j {
      RangesSorted(d, i, j - 1);
    } else if j < i {
      RangesSorted(d, j, i - 1);
    }
  }

  // ---- Which gaps stay open ----

  /** Gap k of a key lies before key[k]; the gaps ks stay, all others are closed. */
  ghost predicate Kept(key: seq<int32>, ks: seq<nat>) {
    && |key| > 0
    && (forall i :: 0 <= i < |ks| ==> 0 < ks[i] < |key|)
    && (forall i, j :: 0 <= i < j < |ks| ==> ks[i] < ks[j])
  }

  /** The bounds left: the two ends of the key, and both sides of every gap that stays. */
  ghost function Cut(key: seq<int32>, ks: seq<nat>): (d: seq<int32>)
    requires Kept(key, ks)
    ensures |d| == 2 * |ks| + 2
  {
    seq(2 * |ks| + 2, j requires 0 <= j < 2 * |ks| + 2 =>
      if j == 0 then key[0]
      else if j == 2 * |ks| + 1 then key[|key| - 1]
      else if j % 2 == 1 then key[ks[j / 2] - 1]
      else key[ks[j / 2 - 1]])
  }

  /** A gap is closed before another if its 32-bit distance is smaller, or if it is the left one
      of two with the same. */
  ghost predicate Sooner(key: seq<int32>, j: nat, k: nat)
    requires 0 < j < |key| && 0 < k < |key|
  {
    Gap(key, j) < Gap(key, k) || (Gap(key, j) == Gap(key, k) && j < k)
  }

  ghost predicate Closed(key: seq<int32>, ks: seq<nat>, j: int) {
    0 < j < |key| && j !in ks
  }

  /** Every closed gap had its turn before every gap that stays. */
  ghost predicate Chosen(key: seq<int32>, ks: seq<nat>)
    requires Kept(key, ks)
  {
    forall j, i :: Closed(key, ks, j) && 0 <= i < |ks| ==> Sooner(key, j, ks[i])
  }

  ghost predicate Member(key: seq<int32>, x: int) {
    exists i :: 0 <= i < |key| && key[i] == x
  }

  ghost predicate InClosed(key: seq<int32>, ks: seq<nat>, x: int) {
    exists j :: Closed(key, ks, j) && key[j - 1] < x < key[j]
  }

  /** The ranges cover the key and what lies in its closed gaps. */
  ghost predicate Filled(key: seq<int32>, ks: seq<nat>, d: seq<int32>) {
    forall x :: Covered(d, x) <==> Member(key, x) || InClosed(key, ks, x)
  }

  /** d is the key with the gaps ks left and all others closed, the soonest first. */
  ghost predicate Cutting(key: seq<int32>, ks: seq<nat>, d: seq<int32>) {
    Kept(key, ks) && d == Cut(key, ks) && Chosen(key, ks) && Filled(key, ks, d)
  }

  ghost function AllGaps(n: nat): (ks: seq<nat>)
    requires n > 0
    ensures |ks| == n - 1
  {
    seq(n - 1, i requires 0 <= i < n - 1 => i + 1)
  }

  lemma AllGapsIn(n: nat, j: nat)
    requires 0 < j < n
    ensures j in AllGaps(n)
  {
    assert AllGaps(n)[j - 1] == j;
  }

  lemma CutAllGaps(key: seq<int32>)
    requires |key| > 0
    ensures Kept(key, AllGaps(|key|)) && Doubled(key) == Cut(key, AllGaps(|key|))
  {
  }

  lemma DoubledAt(key: seq<int32>, k: nat)
    requires k < |key|
    ensures Doubled(key)[2 * k] == key[k] == Doubled(key)[2 * k + 1]
  {
  }

  lemma DoubledCovers(key: seq<int32>, x: int)
    ensures Covered(Doubled(key), x) <==> Member(key, x)
  {
    hide Doubled;
    var d := Doubled(key);
    if Member(key, x) {
      var k :| 0 <= k < |key| && key[k] == x;
      DoubledAt(key, k);
      CoveredAt(d, 2 * k, x);
    }
    if Covered(d, x) {
      var i :| 0 <= i < |d| - 1 && i % 2 == 0 && d[i] <= x <= d[i + 1];
      DoubledAt(key, i / 2);
    }
  }

  lemma CutAll(key: seq<int32>)
    requires |key| > 0
    ensures Cutting(key, AllGaps(|key|), Doubled(key))
  {
    hide Covered, Member, Doubled, AllGaps, Cut, Kept, Sooner;
    CutAllGaps(key);
    forall j: nat | 0 < j < |key|
      ensures j in AllGaps(|key|)
    {
      AllGapsIn(|key|, j);
    }
    forall x
      ensures Covered(Doubled(key), x) <==> Member(key, x)
    {
      DoubledCovers(key, x);
    }
  }

  ghost function Without(ks: seq<nat>, i: nat): (r: seq<nat>)
    requires i < |ks|
    ensures |r| == |ks| - 1
    ensures forall n :: 0 <= n < |r| ==> r[n] == ks[if n < i then n else n + 1]
  {
    ks[..i] + ks[i + 1..]
  }

  lemma WithoutMembers(key: seq<int32>, ks: seq<nat>, i: nat, j: nat)
    requires Kept(key, ks) && i < |ks|
    ensures j in Without(ks, i) <==> j in ks && j != ks[i]
  {
    var r := Without(ks, i);
    if n :| 0 <= n < |ks| && ks[n] == j && n != i {
      assert r[if n < i then n else n - 1] == j;
    }
  }

  lemma KeptWithout(key: seq<int32>, ks: seq<nat>, i: nat)
    requires Kept(key, ks) && i < |ks|
    ensures Kept(key, Without(ks, i))
  {
  }

  /** Merging the ranges around a gap that had stayed closes it. */
  lemma CutMerged(key: seq<int32>, ks: seq<nat>, i: nat)
    requires Kept(key, ks) && i < |ks|
    ensures Kept(key, Without(ks, i)) && Merged(Cut(key, ks), 2 * i + 2) == Cut(key, Without(ks, i))
  {
    hide Kept;
    KeptWithout(key, ks, i);
    var m, d := Merged(Cut(key, ks), 2 * i + 2), Cut(key, Without(ks, i));
    forall j | 0 <= j < |d|
      ensures m[j] == d[j]
    {
      assert m[j] == Cut(key, ks)[if j < 2 * i + 1 then j else j + 2];
    }
  }

  /** The gaps of the ranges are those of the key that stay. */
  lemma CutGap(key: seq<int32>, ks: seq<nat>, i: nat)
    requires Kept(key, ks) && i < |ks|
    ensures var d := Cut(key, ks); d[2 * i + 1] == key[ks[i] - 1] && d[2 * i + 2] == key[ks[i]]
    ensures Gap(Cut(key, ks), 2 * i + 2) == Gap(key, ks[i])
  {
  }

  lemma ChosenMore(key: seq<int32>, ks: seq<nat>, i: nat)
    requires Kept(key, ks) && Chosen(key, ks) && i < |ks| && Kept(key, Without(ks, i))
    requires forall n :: 0 <= n < |ks| && n != i ==> Sooner(key, ks[i], ks[n])
    ensures Chosen(key, Without(ks, i))
  {
    hide Sooner;
    var r := Without(ks, i);
    forall j, n | Closed(key, r, j) && 0 <= n < |r|
      ensures Sooner(key, j, r[n])
    {
      WithoutMembers(key, ks, i, j);
      var n' := if n < i then n else n + 1;
      assert r[n] == ks[n'];
      assert j == ks[i] || Closed(key, ks, j);
    }
  }

  lemma ClosedMore(key: seq<int32>, ks: seq<nat>, i: nat, x: int)
    requires Kept(key, ks) && i < |ks|
    ensures InClosed(key, Without(ks, i), x) <==> InClosed(key, ks, x) || key[ks[i] - 1] < x < key[ks[i]]
  {
    var r, k := Without(ks, i), ks[i];
    WithoutMembers(key, ks, i, k);
    if key[k - 1] < x < key[k] {
      assert Closed(key, r, k);
    }
    if InClosed(key, ks, x) {
      var j :| Closed(key, ks, j) && key[j - 1] < x < key[j];
      WithoutMembers(key, ks, i, j);
      assert Closed(key, r, j);
    }
    if InClosed(key, r, x) {
      var j :| Closed(key, r, j) && key[j - 1] < x < key[j];
      WithoutMembers(key, ks, i, j);
      assert j == k || Closed(key, ks, j);
    }
  }

  lemma FilledMore(key: seq<int32>, ks: seq<nat>, d: seq<int32>, i: nat)
    requires Kept(key, ks) && d == Cut(key, ks) && Filled(key, ks, d) && Ranges(d) && i < |ks|
    ensures Filled(key, Without(ks, i), Merged(d, 2 * i + 2))
  {
    hide Covered, Cut, Ranges, Member, Kept, InClosed, Without;
    CutGap(key, ks, i);
    forall x
      ensures Covered(Merged(d, 2 * i + 2), x) <==> Member(key, x) || InClosed(key, Without(ks, i), x)
    {
      MergedCovers(d, 2 * i + 2, x);
      ClosedMore(key, ks, i, x);
    }
  }

  /** The choice of the first smallest gap of the ranges closes the next gap of the key. */
  lemma CuttingMore(key: seq<int32>, ks: seq<nat>, d: seq<int32>, c: nat)
    requires Cutting(key, ks, d) && Ranges(d) && 2 <= c < |d| && c % 2 == 0
    requires forall i :: 2 <= i < |d| && i % 2 == 0 ==> Gap(d, c) <= Gap(d, i)
    requires forall i :: 2 <= i < c && i % 2 == 0 ==> Gap(d, c) < Gap(d, i)
    ensures Cutting(key, Without(ks, c / 2 - 1), Merged(d, c))
  {
    hide Gap, Merged, Cut, Ranges, Filled, Chosen;
    var i := c / 2 - 1;
    CutGap(key, ks, i);
    forall n | 0 <= n < |ks| && n != i
      ensures Sooner(key, ks[i], ks[n])
    {
      CutGap(key, ks, n);
      assert Gap(d, c) <= Gap(d, 2 * n + 2);
    }
    CutMerged(key, ks, i);
    ChosenMore(key, ks, i);
    FilledMore(key, ks, d, i);
  }

  // ---- g_int_compress ----

  /** Line 202. */
  method RemovePair(dr: array<int32>, len: nat, cand: nat)
    requires 2 <= cand < len <= dr.Length
    modifies dr
    ensures dr[..len - 2] == Merged(old(dr[..len]), cand)
  {
    ghost var d := dr[..len];
    var k := cand - 1;
    while k < len - 2
      invariant cand - 1 <= k <= len - 2 || k == cand - 1
      invariant forall i :: 0 <= i < cand - 1 ==> dr[i] == d[i]
      invariant forall i :: cand - 1 <= i < k ==> dr[i] == d[i + 2]
      invariant forall i :: k <= i < len ==> dr[i] == d[i]
    {
      dr[k] := dr[k + 2];
      k := k + 1;
    }
  }

  /** What compression may do to a set of ranges: forget gaps, but no member and no end. */
  ghost predicate Widened(d: seq<int32>, d': seq<int32>) {
    && Ranges(d') && 0 < |d'| <= |d|
    && d'[0] == d[0] && d'[|d'| - 1] == d[|d| - 1]
    && (forall x :: Covered(d, x) ==> Covered(d', x))
    && (forall x: int32 :: x in d' ==> x in d)
  }

  lemma WidenedMore(d: seq<int32>, d1: seq<int32>, c: nat)
    requires Ranges(d) && Widened(d, d1) && 2 <= c < |d1| && c % 2 == 0
    ensures Widened(d, Merged(d1, c))
  {
    var m := Merged(d1, c);
    MergedRanges(d1, c);
    forall x | Covered(d, x)
      ensures Covered(m, x)
    {
      MergedCovers(d1, c, x);
    }
  }

  /** Lines 193-204. */
  method MergeRanges(dr: array<int32>, len0: nat, ghost key: seq<int32>) returns (len: nat)
    requires len0 <= dr.Length && len0 >= 2 * MAX_RANGES && Strict(key) && dr[..len0] == Doubled(key)
    modifies dr
    ensures len == 2 * MAX_RANGES && Widened(Doubled(key), dr[..len])
    ensures exists ks :: Cutting(key, ks, dr[..len])
  {
    hide Widened, Ranges, Gap, Merged, Cutting, Strict, Doubled;
    DoubledRanges(key);
    ghost var d, ks := dr[..len0], AllGaps(|key|);
    len := len0;
    CutAll(key);
    WidenedSelf(d);
    var cand := 1;
    while len > 2 * MAX_RANGES
      invariant 2 * MAX_RANGES <= len <= len0 && len % 2 == 0
      invariant Widened(d, dr[..len]) && Cutting(key, ks, dr[..len])
    {
      WidenedRanges(d, dr[..len]);
      cand := FindGap(dr, len, cand);
      WidenedMore(d, dr[..len], cand);
      CuttingMore(key, ks, dr[..len], cand);
      CuttingLength(key, ks, dr[..len]);
      ks := Without(ks, cand / 2 - 1);
      RemovePair(dr, len, cand);
      len := len - 2;
    }
  }

  lemma CuttingLength(key: seq<int32>, ks: seq<nat>, d: seq<int32>)
    requires Cutting(key, ks, d)
    ensures |d| == 2 * |ks| + 2
  {
  }

  lemma WidenedSelf(d: seq<int32>)
    requires Ranges(d) && |d| > 0
    ensures Widened(d, d) && |d| % 2 == 0
  {
  }

  lemma WidenedRanges(d: seq<int32>, d': seq<int32>)
    requires Widened(d, d')
    ensures Ranges(d') && |d'| % 2 == 0
  {
  }

  /** What g_int_compress makes of an internal key (lines 166-214): of at least 200 elements the
      100 ranges between the 99 gaps whose turn to be closed comes last; anything shorter is
      kept. */
  ghost predicate Compressed(key: seq<int32>, r: seq<int32>) {
    if |key| < 2 * MAX_RANGES then r == key
    else |r| == 2 * MAX_RANGES && Widened(Doubled(key), r) && exists ks :: Cutting(key, ks, r)
  }

  method Compress(key: seq<int32>) returns (r: array<int32>, len: nat)
    requires Strict(key)
    ensures fresh(r) && len <= r.Length && Compressed(key, r[..len])
  {
    hide Widened, Ranges, Doubled, Strict, Cutting;
    len := |key|;
    r := new int32[2 * len];
    CopyIn(r, 0, key);
    assert r[..0] + key == key;
    if len >= 2 * MAX_RANGES {
      Double(r, len);
      len := MergeRanges(r, 2 * len, key);
    }
  }

  lemma CompressedCovers(key: seq<int32>, r: seq<int32>)
    requires Strict(key) && |key| >= 2 * MAX_RANGES && Compressed(key, r)
    ensures Ranges(r) && Covers(r, key)
    ensures r[0] == key[0] && r[|r| - 1] == key[|key| - 1]
  {
    DoubledRanges(key);
    assert Doubled(key)[0] == key[0];
  }

  // ---- Exactly which ranges these are ----

  ghost function Elements(ks: seq<nat>): set<nat> {
    set k | k in ks
  }

  lemma KeptPrefix(key: seq<int32>, ks: seq<nat>)
    requires Kept(key, ks) && |ks| > 0
    ensures var n := |ks| - 1; Kept(key, ks[..n]) && ks[n] !in ks[..n]
  {
  }

  lemma {:induction false} KeptCount(key: seq<int32>, ks: seq<nat>)
    requires Kept(key, ks)
    ensures |Elements(ks)| == |ks|
  {
    hide Kept;
    if |ks| == 0 {
      assert Elements(ks) == {};
    } else {
      var n := |ks| - 1;
      KeptPrefix(key, ks);
      KeptCount(key, ks[..n]);
      assert ks == ks[..n] + [ks[n]];
      assert Elements(ks) == Elements(ks[..n]) + {ks[n]};
    }
  }

  /** Of two choices of equally many gaps neither is part of the other. */
  lemma OtherKept(key: seq<int32>, ks: seq<nat>, ls: seq<nat>, k: nat) returns (l: nat)
    requires Kept(key, ks) && Kept(key, ls) && |ks| == |ls| && k in ks && k !in ls
    ensures l in ls && l !in ks
  {
    hide Kept;
    var ss, ts := Elements(ks), Elements(ls);
    KeptCount(key, ks);
    KeptCount(key, ls);
    assert |ts - ss| + |ts * ss| == |ts| && |ss - ts| + |ss * ts| == |ss|;
    assert ss * ts == ts * ss && k in ss - ts;
    assert |ts - ss| > 0;
    l :| l in ts - ss;
  }

  lemma SoonerOnce(key: seq<int32>, ks: seq<nat>, j: nat, k: nat)
    requires Kept(key, ks) && Chosen(key, ks) && Closed(key, ks, j) && k in ks
    ensures 0 < k < |key| && Sooner(key, j, k) && !Sooner(key, k, j)
  {
    var i :| 0 <= i < |ks| && ks[i] == k;
    assert Sooner(key, j, ks[i]);
  }

  /** Two choices of equally many gaps choose the same. */
  lemma SameChoice(key: seq<int32>, ks: seq<nat>, ls: seq<nat>, k: nat)
    requires Kept(key, ks) && Kept(key, ls) && |ks| == |ls| && Chosen(key, ks) && Chosen(key, ls) && k in ks
    ensures k in ls
  {
    hide Sooner, Chosen;
    if k !in ls {
      var l := OtherKept(key, ks, ls, k);
      SoonerOnce(key, ks, l, k);
      SoonerOnce(key, ls, k, l);
      assert false;
    }
  }

  lemma {:induction false} SameKept(key: seq<int32>, ks: seq<nat>, ls: seq<nat>)
    requires Kept(key, ks) && Kept(key, ls) && |ks| == |ls|
    requires forall k :: k in ks <==> k in ls
    ensures ks == ls
  {
    if |ks| > 0 {
      var n := |ks| - 1;
      assert ks[n] in ls && ls[n] in ks;
      assert ks[n] == ls[n];
      forall k
        ensures k in ks[..n] <==> k in ls[..n]
      {
        assert k in ks[..n] <==> k in ks && k != ks[n];
        assert k in ls[..n] <==> k in ls && k != ls[n];
      }
      SameKept(key, ks[..n], ls[..n]);
      assert ks == ks[..n] + [ks[n]] && ls == ls[..n] + [ls[n]];
    }
  }

  /** Compression is determined by what is said of it. */
  lemma CompressedUnique(key: seq<int32>, r: seq<int32>, r': seq<int32>)
    requires Compressed(key, r) && Compressed(key, r')
    ensures r == r'
  {
    if |key| >= 2 * MAX_RANGES {
      hide Widened, Cut, Chosen, Filled;
      var ks :| Cutting(key, ks, r);
      var ls :| Cutting(key, ls, r');
      forall k
        ensures k in ks <==> k in ls
      {
        if k in ks {
          SameChoice(key, ks, ls, k);
        }
        if k in ls {
          SameChoice(key, ls, ks, k);
        }
      }
      SameKept(key, ks, ls);
    }
  }

  ghost predicate AllKeptWider(key: seq<int32>, ks: seq<nat>)
    requires Kept(key, ks)
  {
    forall j, i :: Closed(key, ks, j) && 0 <= i < |ks| ==> Distance(key, j) <= Distance(key, ks[i])
  }

  ghost predicate NoGapWraps(key: seq<int32>) {
    forall j :: 0 < j < |key| ==> Distance(key, j) <= MAX_INT
  }

  lemma StrictGap(key: seq<int32>, j: nat)
    requires Strict(key) && 0 < j < |key|
    ensures 0 < Distance(key, j) < 0x1_0000_0000
    ensures Gap(key, j) == if Distance(key, j) <= MAX_INT then Distance(key, j) else Distance(key, j) - 0x1_0000_0000
  {
  }

  /** Only one gap can wrap. */
  lemma OneGapWraps(key: seq<int32>, i: nat, j: nat)
    requires Strict(key) && 0 < i < |key| && 0 < j < |key| && i != j && Distance(key, i) > MAX_INT
    ensures Distance(key, j) <= MAX_INT
  {
    var m, n := if i < j then i else j, if i < j then j else i;
    assert key[m] <= key[n - 1];
  }

  /** The 99 gaps that stay are the widest if and only if no gap is 2^31 or wider; one that is
      so wide is closed first of all. */
  lemma WidestKept(key: seq<int32>, ks: seq<nat>)
    requires Strict(key) && |key| >= 2 * MAX_RANGES && Kept(key, ks) && |ks| == MAX_RANGES - 1 && Chosen(key, ks)
    ensures AllKeptWider(key, ks) <==> NoGapWraps(key)
  {
    hide Gap, Distance, Strict;
    if NoGapWraps(key) {
      forall j, i | Closed(key, ks, j) && 0 <= i < |ks|
        ensures Distance(key, j) <= Distance(key, ks[i])
      {
        StrictGap(key, j);
        StrictGap(key, ks[i]);
        assert Sooner(key, j, ks[i]);
      }
    } else {
      var w :| 0 < w < |key| && Distance(key, w) > MAX_INT;
      WideClosed(key, ks, w);
      var k := ks[0];
      assert Closed(key, ks, w) && w != k;
      OneGapWraps(key, w, k);
      assert !(Distance(key, w) <= Distance(key, ks[0]));
    }
  }

  lemma WideClosed(key: seq<int32>, ks: seq<nat>, w: nat)
    requires Strict(key) && |key| >= 2 * MAX_RANGES && Kept(key, ks) && |ks| == MAX_RANGES - 1 && Chosen(key, ks)
    requires 0 < w < |key| && Distance(key, w) > MAX_INT
    ensures Closed(key, ks, w)
  {
    hide Gap, Distance, Strict;
    if w in ks {
      var j := SomeClosed(key, ks);
      var i :| 0 <= i < |ks| && ks[i] == w;
      assert Sooner(key, j, ks[i]);
      StrictGap(key, j);
      StrictGap(key, w);
      OneGapWraps(key, w, j);
      assert false;
    }
  }

  lemma SomeClosed(key: seq<int32>, ks: seq<nat>) returns (j: nat)
    requires Kept(key, ks) && |ks| < |key| - 1
    ensures Closed(key, ks, j)
  {
    var ss, all := Elements(ks), GapSet(|key|);
    KeptCount(key, ks);
    assert ss <= all;
    assert |all - ss| == |all| - |ss| > 0;
    j :| j in all - ss;
  }

  ghost function GapSet(n: nat): (all: set<nat>)
    requires n > 0
    ensures |all| == n - 1 && forall k: nat :: k in all <==> 0 < k < n
  {
    if n == 1 then {} else GapSet(n - 1) + {n - 1}
  }

  /** Inside the 100 ranges lie the elements of the key and what its closed gaps have between
      them, and the gaps closed are all but 99. */
  lemma CompressedExact(key: seq<int32>, r: seq<int32>) returns (ks: seq<nat>)
    requires |key| >= 2 * MAX_RANGES && Compressed(key, r)
    ensures Kept(key, ks) && |ks| == MAX_RANGES - 1 && Chosen(key, ks) && r == Cut(key, ks)
    ensures forall x :: Covered(r, x) <==> Member(key, x) || InClosed(key, ks, x)
  {
    hide Cut, Chosen, Widened;
    ks :| Cutting(key, ks, r);
  }
}
