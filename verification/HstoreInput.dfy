/** Building a packed hstore from text (uniquePairs and hstore_in in
    contrib/hstore/hstore_io.c), and the round trip through text.
 */
module HstoreInput {
  import opened Hstores
  import opened HstoreOps
  import opened HstoreText
  import opened HstorePrint

  // ---- What the parser collects ----

  ghost predicate RawOk(r: RawPair) {
    NulFree(r.key) && NulFree(r.val)
  }

  ghost predicate AllOk(rs: seq<RawPair>) {
    forall i :: 0 <= i < |rs| ==> RawOk(rs[i])
  }

  lemma CollectOk(key: string, word: string, escaped: bool)
    requires NulFree(key) && NulFree(word)
    ensures RawOk(Collect(key, word, escaped))
  {
  }

  lemma {:induction false} ParseOk(s: string, p: nat, st: ParseState, key: string, done: seq<RawPair>)
    requires p <= |s| && NulFree(key) && AllOk(done)
    ensures var r := ParseFrom(s, p, st, key, done); r.Ok? ==> AllOk(r.value)
    decreases |s| - p
  {
    hide Scan, Collect, RawOk;
    var c := At(s, p);
    match st
    case WKey =>
      ScanAdvances(s, p, false, WaitVal, "", false);
      var r := Scan(s, p, false, WaitVal, "", false);
      if r.Got? {
        ParseOk(s, r.at + 1, WEq, r.word, done);
      }
    case WEq =>
      if p < |s| {
        ParseOk(s, p + 1, WEq, key, done);
        ParseOk(s, p + 1, WGt, key, done);
      }
    case WGt =>
      if p < |s| {
        ParseOk(s, p + 1, WVal, key, done);
      }
    case WVal =>
      ScanAdvances(s, p, true, WaitVal, "", false);
      var r := Scan(s, p, true, WaitVal, "", false);
      if r.Got? {
        CollectOk(key, r.word, r.escaped);
        ParseOk(s, r.at + 1, WDel, key, done + [Collect(key, r.word, r.escaped)]);
      }
    case WDel =>
      if p < |s| {
        ParseOk(s, p + 1, WKey, key, done);
        ParseOk(s, p + 1, WDel, key, done);
      }
  }

  // ---- comparePairs ----

  function RawKey(r: RawPair): string {
    r.key[..r.keylen]
  }

  /** comparePairs (lines 260-283). */
  function ComparePairs(a: RawPair, b: RawPair): int {
    if a.keylen == b.keylen then
      var res := StrNCmp(RawKey(a), RawKey(b), a.keylen);
      if res != 0 then res
      else if b.needfree == a.needfree then 0
      else if a.needfree then 1
      else -1
    else if a.keylen > b.keylen then 1 else -1
  }

  lemma PairsByKey(a: RawPair, b: RawPair)
    requires RawOk(a) && RawOk(b)
    ensures ComparePairs(a, b) <= 0 <==>
            CompareKeys(RawKey(a), RawKey(b)) < 0 || (RawKey(a) == RawKey(b) && (a.needfree ==> b.needfree))
  {
    hide StrNCmp;
    KeyOrder(RawKey(a), RawKey(b));
  }

  /** comparePairs is a total preorder, as a sort needs. */
  lemma PairsOrder(a: RawPair, b: RawPair, c: RawPair)
    requires RawOk(a) && RawOk(b) && RawOk(c)
    ensures ComparePairs(a, b) <= 0 || ComparePairs(b, a) <= 0
    ensures ComparePairs(a, b) <= 0 && ComparePairs(b, c) <= 0 ==> ComparePairs(a, c) <= 0
  {
    hide ComparePairs, CompareKeys, NulFree;
    PairsByKey(a, b);
    PairsByKey(b, a);
    PairsByKey(b, c);
    PairsByKey(a, c);
    SliceNulFree(a);
    SliceNulFree(b);
    SliceNulFree(c);
    KeyOrder(RawKey(a), RawKey(b));
    KeyOrder(RawKey(b), RawKey(a));
    if CompareKeys(RawKey(a), RawKey(b)) < 0 && CompareKeys(RawKey(b), RawKey(c)) < 0 {
      KeyTrans(RawKey(a), RawKey(b), RawKey(c));
    }
  }

  lemma SliceNulFree(r: RawPair)
    requires RawOk(r)
    ensures NulFree(RawKey(r))
  {
  }

  // ---- Sorting ----

  ghost predicate SortedRaw(s: seq<RawPair>) {
    forall i, j :: 0 <= i < j < |s| ==> ComparePairs(s[i], s[j]) <= 0
  }

  /** The insertion of x behind everything that is not greater. */
  function Insert(s: seq<RawPair>, x: RawPair): seq<RawPair> {
    if |s| == 0 then [x]
    else if ComparePairs(s[|s| - 1], x) <= 0 then s + [x]
    else Insert(s[..|s| - 1], x) + [s[|s| - 1]]
  }

  lemma {:induction false} InsertSorted(s: seq<RawPair>, x: RawPair)
    requires AllOk(s) && RawOk(x) && SortedRaw(s)
    ensures AllOk(Insert(s, x)) && SortedRaw(Insert(s, x))
    ensures multiset(Insert(s, x)) == multiset(s) + multiset{x}
  {
    hide ComparePairs, RawOk, Insert, AllOk, SortedRaw;
    InsertStep(s, x);
    if |s| == 0 {
      AloneSorted(x);
    } else if ComparePairs(s[|s| - 1], x) <= 0 {
      LastBelow(s, x);
      AppendSorted(s, x);
    } else {
      var n := |s| - 1;
      PrefixSorted(s, n);
      LastOk(s);
      InsertSorted(s[..n], x);
      LastAbove(Insert(s[..n], x), s, x);
      AppendSorted(Insert(s[..n], x), s[n]);
      assert s == s[..n] + [s[n]];
    }
  }

  lemma InsertStep(s: seq<RawPair>, x: RawPair)
    ensures Insert(s, x) == if |s| == 0 then [x]
                            else if ComparePairs(s[|s| - 1], x) <= 0 then s + [x]
                            else Insert(s[..|s| - 1], x) + [s[|s| - 1]]
  {
    hide ComparePairs;
  }

  lemma AloneSorted(x: RawPair)
    requires RawOk(x)
    ensures AllOk([x]) && SortedRaw([x])
  {
    hide ComparePairs, RawOk;
  }

  lemma PrefixSorted(s: seq<RawPair>, n: nat)
    requires AllOk(s) && SortedRaw(s) && n <= |s|
    ensures AllOk(s[..n]) && SortedRaw(s[..n])
  {
    hide ComparePairs, RawOk;
  }

  /** A list in order stays so when something is appended that nothing in it exceeds. */
  lemma AppendSorted(t: seq<RawPair>, l: RawPair)
    requires AllOk(t) && SortedRaw(t) && RawOk(l)
    requires forall i :: 0 <= i < |t| ==> ComparePairs(t[i], l) <= 0
    ensures AllOk(t + [l]) && SortedRaw(t + [l])
  {
    hide ComparePairs, RawOk;
  }

  lemma LastOk(s: seq<RawPair>)
    requires AllOk(s) && |s| > 0
    ensures RawOk(s[|s| - 1])
  {
    hide RawOk;
  }

  /** Nothing in s exceeds x if the last element does not. */
  lemma LastBelow(s: seq<RawPair>, x: RawPair)
    requires AllOk(s) && SortedRaw(s) && RawOk(x) && |s| > 0 && ComparePairs(s[|s| - 1], x) <= 0
    ensures forall i :: 0 <= i < |s| ==> ComparePairs(s[i], x) <= 0
  {
    hide ComparePairs, RawOk;
    forall i | 0 <= i < |s| - 1
      ensures ComparePairs(s[i], x) <= 0
    {
      PairsOrder(s[i], s[|s| - 1], x);
    }
  }

  /** Nothing in t exceeds the last element of s if t holds x, which that exceeds, and the others. */
  lemma LastAbove(t: seq<RawPair>, s: seq<RawPair>, x: RawPair)
    requires AllOk(s) && SortedRaw(s) && RawOk(x) && |s| > 0 && ComparePairs(s[|s| - 1], x) > 0
    requires multiset(t) == multiset(s[..|s| - 1]) + multiset{x}
    ensures forall i :: 0 <= i < |t| ==> ComparePairs(t[i], s[|s| - 1]) <= 0
  {
    hide ComparePairs, RawOk;
    var n := |s| - 1;
    PairsOrder(s[n], x, x);
    forall i | 0 <= i < |t|
      ensures ComparePairs(t[i], s[n]) <= 0
    {
      assert t[i] in multiset(t);
      if t[i] != x {
        assert t[i] in s[..n];
        var j :| 0 <= j < n && s[..n][j] == t[i];
        assert s[j] == t[i];
      }
    }
  }

  function SortPairs(s: seq<RawPair>): (r: seq<RawPair>) {
    if |s| == 0 then [] else Insert(SortPairs(s[..|s| - 1]), s[|s| - 1])
  }

  lemma {:induction false} SortPairsSorts(s: seq<RawPair>)
    requires AllOk(s)
    ensures AllOk(SortPairs(s)) && SortedRaw(SortPairs(s)) && multiset(SortPairs(s)) == multiset(s)
    ensures |SortPairs(s)| == |s|
  {
    hide ComparePairs, RawOk, Insert;
    if |s| > 0 {
      var n := |s| - 1;
      SortPairsSorts(s[..n]);
      InsertSorted(SortPairs(s[..n]), s[n]);
      assert s == s[..n] + [s[n]];
      SameLength(SortPairs(s), s);
    }
  }

  /** The qsort call of line 299: some order in which nothing is greater than what follows. */
  method QSort(a: array<RawPair>)
    requires AllOk(a[..])
    modifies a
    ensures AllOk(a[..]) && SortedRaw(a[..]) && multiset(a[..]) == multiset(old(a[..]))
  {
    hide SortedRaw, AllOk, SortPairs;
    var s := SortPairs(a[..]);
    SortPairsSorts(a[..]);
    for k := 0 to a.Length
      invariant a[..k] == s[..k]
    {
      a[k] := s[k];
    }
    assert a[..] == s;
  }

  lemma OkAt(s: seq<RawPair>, k: nat)
    requires AllOk(s) && k < |s|
    ensures RawOk(s[k])
  {
  }

  lemma SameLength(s: seq<RawPair>, t: seq<RawPair>)
    requires multiset(s) == multiset(t)
    ensures |s| == |t|
  {
    assert |multiset(s)| == |s| && |multiset(t)| == |t|;
  }

  // ---- uniquePairs ----

  ghost predicate StrictRaw(s: seq<RawPair>) {
    forall i, j :: 0 <= i < j < |s| ==> CompareKeys(RawKey(s[i]), RawKey(s[j])) < 0
  }

  /** u holds r's key, bound by a pair that a sort puts no later than r. */
  ghost predicate Stands(u: seq<RawPair>, r: RawPair) {
    exists i :: 0 <= i < |u| && RawKey(u[i]) == RawKey(r) && ComparePairs(u[i], r) <= 0
  }

  /** Every key of s once, in order; of several pairs with one key, one that needs no freeing if
      there is any. */
  ghost predicate IsUnique(u: seq<RawPair>, s: seq<RawPair>) {
    && StrictRaw(u)
    && (forall r :: r in u ==> r in s)
    && (forall i :: 0 <= i < |s| ==> Stands(u, s[i]))
  }

  ghost function RawSpace(r: RawPair): nat {
    r.keylen + if r.isnull then 0 else r.vallen
  }

  ghost function RawSum(s: seq<RawPair>): nat {
    if |s| == 0 then 0 else RawSum(s[..|s| - 1]) + RawSpace(s[|s| - 1])
  }

  lemma OneUnique(r: RawPair)
    requires RawOk(r)
    ensures AllOk([r]) && IsUnique([r], [r])
  {
    PairsOrder(r, r, r);
    assert [r][0] == r;
  }

  lemma AppendOk(u: seq<RawPair>, x: RawPair)
    requires AllOk(u) && RawOk(x)
    ensures AllOk(u + [x])
  {
  }

  /** The next pair in order: its key is the last one again, or a new one. */
  lemma UniqueStep(u: seq<RawPair>, s: seq<RawPair>, x: RawPair)
    requires AllOk(u) && AllOk(s) && RawOk(x) && AllOk(s + [x]) && AllOk(u + [x])
    requires |u| > 0 && IsUnique(u, s) && ComparePairs(u[|u| - 1], x) <= 0
    ensures RawKey(x) == RawKey(u[|u| - 1]) ==> IsUnique(u, s + [x])
    ensures RawKey(x) != RawKey(u[|u| - 1]) ==> IsUnique(u + [x], s + [x])
  {
    hide ComparePairs, CompareKeys, RawOk, RawKey;
    PairsByKey(u[|u| - 1], x);
    if RawKey(x) == RawKey(u[|u| - 1]) {
      assert Stands(u, x);
    } else {
      forall i | 0 <= i < |u|
        ensures CompareKeys(RawKey(u[i]), RawKey(x)) < 0
      {
        if i < |u| - 1 {
          KeyTrans(RawKey(u[i]), RawKey(u[|u| - 1]), RawKey(x));
        }
      }
      PairsOrder(x, x, x);
      assert (u + [x])[|u|] == x;
      forall i | 0 <= i < |s + [x]|
        ensures Stands(u + [x], (s + [x])[i])
      {
        if i < |s| {
          assert Stands(u, s[i]);
          var k :| 0 <= k < |u| && RawKey(u[k]) == RawKey(s[i]) && ComparePairs(u[k], s[i]) <= 0;
          assert (u + [x])[k] == u[k];
        }
      }
    }
  }

  /** The scan of lines 300-323 over sorted pairs, which compacts them in place. */
  method Compact(a: array<RawPair>) returns (n: nat, buflen: nat)
    requires a.Length >= 2 && AllOk(a[..]) && SortedRaw(a[..])
    modifies a
    ensures n <= a.Length && AllOk(a[..n]) && IsUnique(a[..n], old(a[..])) && buflen == RawSum(a[..n])
  {
    hide AllOk, IsUnique, SortedRaw, RawSum, RawOk;
    ghost var s := a[..];
    var ptr, res := 1, 0;
    buflen := 0;
    ghost var u := [s[0]];
    OkAt(s, 0);
    OneUnique(s[0]);
    assert s[..1] == [s[0]];
    RawSumNone();
    while ptr < a.Length
      invariant 0 <= res < ptr <= a.Length
      invariant a[..res + 1] == u && a[ptr..] == s[ptr..]
      invariant AllOk(u) && AllOk(s[..ptr]) && IsUnique(u, s[..ptr]) && buflen == RawSum(u[..res])
    {
      var x := a[ptr];
      assert x == a[ptr..][0] == s[ptr];
      assert a[ptr + 1..] == a[ptr..][1..];
      assert s[..ptr + 1] == s[..ptr] + [x];
      assert u[res] == a[res];
      OkAt(s, ptr);
      OkAt(u, res);
      AppendOk(u, x);
      AppendOk(s[..ptr], x);
      LastInOrder(u, s, ptr);
      UniqueStep(u, s[..ptr], x);
      SameRawKey(x, a[res]);
      if !(x.keylen == a[res].keylen && StrNCmp(x.key[..x.keylen], a[res].key[..a[res].keylen], a[res].keylen) == 0) {
        buflen := buflen + a[res].keylen + if a[res].isnull then 0 else a[res].vallen;
        RawSumNext(u, res);
        assert u[..res + 1] == u;
        u := u + [x];
        res := res + 1;
        a[res] := x;
        assert a[..res] == u[..res];
        assert u[..res] == u[..|u| - 1];
      }
      ptr := ptr + 1;
    }
    buflen := buflen + a[res].keylen + if a[res].isnull then 0 else a[res].vallen;
    RawSumNext(u, res);
    assert u[..res + 1] == u;
    assert s[..ptr] == s;
    n := res + 1;
  }

  lemma SameRawKey(a: RawPair, b: RawPair)
    requires RawOk(a) && RawOk(b)
    ensures RawKey(a) == RawKey(b) <==>
            a.keylen == b.keylen && StrNCmp(a.key[..a.keylen], b.key[..b.keylen], b.keylen) == 0
  {
    SliceNulFree(a);
    SameKey(RawKey(a), RawKey(b));
  }

  /** What was kept last came before the next pair. */
  lemma LastInOrder(u: seq<RawPair>, s: seq<RawPair>, k: nat)
    requires AllOk(s) && SortedRaw(s) && k < |s| && AllOk(u) && |u| > 0 && AllOk(s[..k]) && IsUnique(u, s[..k])
    ensures ComparePairs(u[|u| - 1], s[k]) <= 0
  {
    hide ComparePairs, StrictRaw, Stands;
    var l := u[|u| - 1];
    assert l in u && l in s[..k];
    var i :| 0 <= i < k && s[..k][i] == l;
    assert s[i] == l;
    OkAt(s, i);
    OkAt(s, k);
  }

  lemma RawSumNone()
    ensures RawSum([]) == 0
  {
  }

  lemma RawSumNext(u: seq<RawPair>, k: nat)
    requires k < |u|
    ensures RawSum(u[..k + 1]) == RawSum(u[..k]) + u[k].keylen + if u[k].isnull then 0 else u[k].vallen
  {
    assert u[..k + 1][..k] == u[..k];
  }

  /** uniquePairs (lines 285-324). */
  method UniquePairs(a: array<RawPair>) returns (n: nat, buflen: nat)
    requires AllOk(a[..])
    modifies a
    ensures n <= a.Length && AllOk(a[..n]) && IsUnique(a[..n], old(a[..])) && buflen == RawSum(a[..n])
  {
    hide AllOk, IsUnique, SortedRaw, RawSum;
    ghost var s := a[..];
    if a.Length < 2 {
      buflen := 0;
      if a.Length == 1 {
        buflen := a[0].keylen + if a[0].isnull then 0 else a[0].vallen;
      }
      assert a[..a.Length] == s;
      ShortUnique(s);
      return a.Length, buflen;
    }
    QSort(a);
    ghost var t := a[..];
    n, buflen := Compact(a);
    SameUnique(a[..n], t, s);
  }

  lemma ShortUnique(s: seq<RawPair>)
    requires AllOk(s) && |s| < 2
    ensures IsUnique(s, s)
    ensures RawSum(s) == if |s| == 0 then 0 else s[0].keylen + if s[0].isnull then 0 else s[0].vallen
  {
    if |s| == 1 {
      OneUnique(s[0]);
      assert s == [s[0]] && RawSum(s[..0]) == 0;
    }
  }

  lemma SameUnique(u: seq<RawPair>, t: seq<RawPair>, s: seq<RawPair>)
    requires AllOk(u) && AllOk(t) && AllOk(s) && IsUnique(u, t) && multiset(t) == multiset(s)
    ensures IsUnique(u, s)
  {
    hide Stands, StrictRaw, RawOk;
    forall r | r in u
      ensures r in s
    {
      assert r in t && r in multiset(t) && r in multiset(s);
    }
    forall i | 0 <= i < |s|
      ensures Stands(u, s[i])
    {
      assert s[i] in multiset(s) && s[i] in multiset(t) && s[i] in t;
      var k :| 0 <= k < |t| && t[k] == s[i];
    }
  }

  lemma RawDistinct(s: seq<RawPair>, i: nat, j: nat)
    requires AllOk(s) && StrictRaw(s) && i < |s| && j < |s| && RawKey(s[i]) == RawKey(s[j])
    ensures i == j
  {
    OkAt(s, i);
    SliceNulFree(s[i]);
    KeyOrder(RawKey(s[i]), RawKey(s[i]));
  }

  /** The greatest pair of a list in order is the last one kept. */
  lemma LastStands(u: seq<RawPair>, s: seq<RawPair>)
    requires AllOk(u) && AllOk(s) && IsUnique(u, s) && StrictRaw(s) && |s| > 0
    ensures |u| > 0 && u[|u| - 1] == s[|s| - 1]
  {
    hide CompareKeys, RawKey, ComparePairs, RawOk;
    var n := |s| - 1;
    assert Stands(u, s[n]);
    var i :| 0 <= i < |u| && RawKey(u[i]) == RawKey(s[n]);
    assert u[i] in s;
    var k :| 0 <= k < |s| && s[k] == u[i];
    RawDistinct(s, k, n);
    var m := |u| - 1;
    assert u[m] in u && u[m] in s;
    var l :| 0 <= l < |s| && s[l] == u[m];
    if i < m && l < n {
      OkAt(s, n);
      OkAt(s, l);
      SliceNulFree(s[n]);
      SliceNulFree(s[l]);
      KeyOrder(RawKey(s[n]), RawKey(s[l]));
    }
    if i < m && l == n {
      RawDistinct(u, i, m);
    }
  }

  lemma PrefixUnique(u: seq<RawPair>, s: seq<RawPair>)
    requires AllOk(u) && AllOk(s) && IsUnique(u, s) && StrictRaw(s) && |s| > 0
    requires |u| > 0 && u[|u| - 1] == s[|s| - 1]
    ensures AllOk(u[..|u| - 1]) && AllOk(s[..|s| - 1])
    ensures IsUnique(u[..|u| - 1], s[..|s| - 1]) && StrictRaw(s[..|s| - 1])
  {
    hide CompareKeys, RawKey, ComparePairs, RawOk;
    var m, n := |u| - 1, |s| - 1;
    forall r | r in u[..m]
      ensures r in s[..n]
    {
      var i :| 0 <= i < m && u[i] == r;
      assert r in u && r in s;
      var k :| 0 <= k < |s| && s[k] == r;
      if k == n {
        RawDistinct(u, i, m);
      }
    }
    forall i | 0 <= i < n
      ensures Stands(u[..m], s[..n][i])
    {
      assert Stands(u, s[i]);
      var k :| 0 <= k < |u| && RawKey(u[k]) == RawKey(s[i]) && ComparePairs(u[k], s[i]) <= 0;
      if k == m {
        RawDistinct(s, i, n);
      }
      assert u[..m][k] == u[k];
    }
  }

  lemma FirstIn(u: seq<RawPair>)
    ensures |u| > 0 ==> u[0] in u
  {
  }

  lemma NothingKept(u: seq<RawPair>)
    requires IsUnique(u, [])
    ensures u == []
  {
    FirstIn(u);
  }

  /** Pairs that are in order already are left as they are. */
  lemma {:induction false} UniqueSame(u: seq<RawPair>, s: seq<RawPair>)
    requires AllOk(u) && AllOk(s) && IsUnique(u, s) && StrictRaw(s)
    ensures u == s
  {
    hide AllOk, IsUnique, StrictRaw;
    if |s| == 0 {
      NothingKept(u);
    } else {
      LastStands(u, s);
      var n := |s| - 1;
      PrefixUnique(u, s);
      UniqueSame(u[..|u| - 1], s[..n]);
      assert u == u[..|u| - 1] + [s[n]] && s == s[..n] + [s[n]];
    }
  }
}
