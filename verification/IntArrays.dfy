/** Sorting and comparing integer arrays (contrib/intarray/_int_tool.c). */
module IntArrays {

  const MAX_INT: int := 0x7fff_ffff
  const MIN_INT: int := -0x8000_0000

  type int32 = x: int | MIN_INT <= x <= MAX_INT

  /** What a 32-bit register holds after an operation with the exact result x. */
  function Wrap32(x: int): (r: int32)
    ensures r == x <==> MIN_INT <= x <= MAX_INT
  {
    (x + 0x8000_0000) % 0x1_0000_0000 - 0x8000_0000
  }

  ghost predicate Sorted(s: seq<int32>) {
    forall i, j :: 0 <= i < j < |s| ==> s[i] <= s[j]
  }

  /** Sorted without repetition: the form of every key and of every prepared query. */
  ghost predicate Strict(s: seq<int32>) {
    forall i, j :: 0 <= i < j < |s| ==> s[i] < s[j]
  }

  ghost predicate SameMembers(s: seq<int32>, t: seq<int32>) {
    forall x: int32 :: x in s <==> x in t
  }

  lemma Inhabited(s: seq<int32>)
    ensures |s| > 0 ==> s[0] in s && s[|s| - 1] in s
  {
  }

  /** Two arrays with the same members in this form are equal element for element. */
  lemma {:induction false} StrictUnique(s: seq<int32>, t: seq<int32>)
    requires Strict(s) && Strict(t) && SameMembers(s, t)
    ensures s == t
  {
    Inhabited(s);
    Inhabited(t);
    if |s| > 0 && |t| > 0 {
      var n, m := |s| - 1, |t| - 1;
      assert s[n] in t && t[m] in s;
      assert s[n] == t[m];
      forall x: int32
        ensures x in s[..n] <==> x in t[..m]
      {
        assert x in s[..n] <==> x in s && x != s[n];
        assert x in t[..m] <==> x in t && x != t[m];
      }
      StrictUnique(s[..n], t[..m]);
      assert s == s[..n] + [s[n]] && t == t[..m] + [t[m]];
    }
  }

  // ---- isort ----

  ghost predicate Permuted(s: seq<int32>, t: seq<int32>) {
    multiset(s) == multiset(t)
  }

  /** Some value occurs twice. */
  ghost predicate Twins(s: seq<int32>) {
    exists x :: multiset(s)[x] >= 2
  }

  lemma {:induction false} StrictNoTwins(s: seq<int32>)
    requires Strict(s)
    ensures !Twins(s)
  {
    if |s| > 0 {
      var n := |s| - 1;
      StrictNoTwins(s[..n]);
      assert s == s[..n] + [s[n]];
      forall x
        ensures multiset(s)[x] < 2
      {
        if x == s[n] {
          assert x !in s[..n];
        }
        assert multiset(s[..n])[x] < 2;
      }
    }
  }

  lemma EqualNeighbours(s: seq<int32>, j: nat)
    requires 0 < j < |s| && s[j - 1] == s[j]
    ensures Twins(s)
  {
    assert s == s[..j - 1] + [s[j - 1], s[j]] + s[j + 1..];
    assert multiset(s)[s[j]] >= 2;
  }

  /** The last k elements are in their final places. */
  ghost predicate Settled(s: seq<int32>, k: nat) {
    forall i, j :: |s| - k <= j < |s| && 0 <= i < j ==> s[i] <= s[j]
  }

  ghost predicate Repeats(s: seq<int32>, n: int) {
    exists j :: 0 < j < n && j < |s| && s[j - 1] == s[j]
  }

  /** A pass has come to cur: the largest element so far is at cur - 1, and once the settled
      end is reached it stays there. */
  ghost predicate Scanned(s: seq<int32>, cur: nat, k: nat) {
    && Settled(s, k)
    && (0 < cur <= |s| - k ==> forall i :: 0 <= i < cur ==> s[i] <= s[cur - 1])
    && (|s| - k <= cur && k < |s| ==> Settled(s, k + 1))
  }

  lemma SwapStep(s: seq<int32>, cur: nat, k: nat)
    requires 0 < cur < |s| && k <= |s| && Scanned(s, cur, k) && s[cur - 1] > s[cur]
    ensures k < |s| && Scanned(s[cur - 1 := s[cur]][cur := s[cur - 1]], cur + 1, k)
  {
    var t := s[cur - 1 := s[cur]][cur := s[cur - 1]];
    assert cur < |s| - k;
    forall i, j | |t| - k <= j < |t| && 0 <= i < j
      ensures t[i] <= t[j]
    {
      assert s[if i == cur then cur - 1 else if i == cur - 1 then cur else i] <= s[j];
    }
    forall i | 0 <= i < cur + 1
      ensures t[i] <= t[cur]
    {
      assert s[if i == cur then cur - 1 else if i == cur - 1 then cur else i] <= s[cur - 1];
    }
  }

  lemma KeepStep(s: seq<int32>, cur: nat, k: nat)
    requires 0 < cur < |s| && k <= |s| && Scanned(s, cur, k) && s[cur - 1] <= s[cur]
    ensures Scanned(s, cur + 1, k)
  {
  }

  lemma SwapBag(s: seq<int32>, i: nat, j: nat, s0: seq<int32>)
    requires i < j < |s| && Permuted(s, s0)
    ensures Permuted(s[i := s[j]][j := s[i]], s0)
  {
  }

  lemma SameTwins(s: seq<int32>, t: seq<int32>)
    requires Permuted(s, t)
    ensures Twins(s) <==> Twins(t)
  {
  }

  method Swap(a: array<int32>, cur: nat)
    requires 0 < cur < a.Length
    modifies a
    ensures a[..] == old(a[..])[cur - 1 := old(a[cur])][cur := old(a[cur - 1])]
  {
    var tmp := a[cur - 1];
    a[cur - 1] := a[cur];
    a[cur] := tmp;
  }

  /** What a pass over s0 knows when it has come to cur. */
  ghost predicate Passing(s0: seq<int32>, s: seq<int32>, cur: nat, k: nat, swapped: bool, r0: bool, r: bool) {
    && Permuted(s, s0) && k <= |s| && Scanned(s, cur, k)
    && (swapped ==> k < |s|)
    && (!swapped ==> Ascending(s, cur) && (r <==> r0 || Repeats(s, cur)))
    && (r ==> r0 || Twins(s0))
  }

  lemma PassSwaps(s0: seq<int32>, s: seq<int32>, cur: nat, k: nat, swapped: bool, r0: bool, r: bool)
    requires 0 < cur < |s| && s[cur - 1] > s[cur] && Passing(s0, s, cur, k, swapped, r0, r)
    ensures Passing(s0, s[cur - 1 := s[cur]][cur := s[cur - 1]], cur + 1, k, true, r0, r)
  {
    hide Scanned, Permuted, Twins;
    SwapStep(s, cur, k);
    SwapBag(s, cur - 1, cur, s0);
  }

  lemma PassKeeps(s0: seq<int32>, s: seq<int32>, cur: nat, k: nat, swapped: bool, r0: bool, r: bool)
    requires 0 < cur < |s| && s[cur - 1] <= s[cur] && Passing(s0, s, cur, k, swapped, r0, r)
    ensures Passing(s0, s, cur + 1, k, swapped, r0, r || s[cur - 1] == s[cur])
  {
    hide Scanned, Permuted, Twins, Repeats, Ascending;
    KeepStep(s, cur, k);
    OneMore(s, cur);
    if s[cur - 1] == s[cur] {
      EqualNeighbours(s, cur);
      SameTwins(s, s0);
    }
  }

  /** Lines 202-216: one pass over the array. */
  method Pass(a: array<int32>, r0: bool, ghost k: nat) returns (swapped: bool, r: bool)
    requires k <= a.Length && Settled(a[..], k)
    modifies a
    ensures Permuted(a[..], old(a[..]))
    ensures swapped ==> k < a.Length && Settled(a[..], k + 1)
    ensures !swapped ==> Settled(a[..], k) && Sorted(a[..]) && (r <==> r0 || Repeats(a[..], a.Length))
    ensures r ==> r0 || Twins(a[..])
  {
    hide Passing, Settled, Sorted, Twins, Permuted, Repeats;
    swapped, r := false, r0;
    var cur := 1;
    ghost var s0 := a[..];
    PassStart(s0, k, r0);
    while cur < a.Length
      invariant 1 <= cur && (cur <= a.Length || cur == 1)
      invariant Passing(s0, a[..], cur, k, swapped, r0, r)
    {
      ghost var s := a[..];
      if a[cur - 1] > a[cur] {
        PassSwaps(s0, s, cur, k, swapped, r0, r);
        Swap(a, cur);
        swapped := true;
      } else {
        PassKeeps(s0, s, cur, k, swapped, r0, r);
        if !r && a[cur - 1] == a[cur] {
          r := true;
        }
      }
      cur := cur + 1;
    }
    PassEnd(s0, a[..], cur, k, swapped, r0, r);
  }

  lemma PassStart(s: seq<int32>, k: nat, r: bool)
    requires k <= |s| && Settled(s, k)
    ensures Passing(s, s, 1, k, false, r, r)
  {
  }

  lemma PassEnd(s0: seq<int32>, s: seq<int32>, cur: nat, k: nat, swapped: bool, r0: bool, r: bool)
    requires |s| <= cur && Passing(s0, s, cur, k, swapped, r0, r)
    ensures Permuted(s, s0)
    ensures swapped ==> k < |s| && Settled(s, k + 1)
    ensures !swapped ==> Settled(s, k) && Sorted(s) && (r <==> r0 || Repeats(s, |s|))
    ensures r ==> r0 || Twins(s)
  {
    SameTwins(s, s0);
    ScanEnd(s, cur, k);
    if !swapped {
      NoMore(s, cur);
      AdjacentSorted(s);
    }
  }

  ghost predicate Ascending(s: seq<int32>, n: nat) {
    forall j :: 0 < j < n && j < |s| ==> s[j - 1] <= s[j]
  }

  lemma OneMore(s: seq<int32>, cur: nat)
    requires 0 < cur < |s|
    ensures Repeats(s, cur + 1) <==> Repeats(s, cur) || s[cur - 1] == s[cur]
    ensures s[cur - 1] == s[cur] ==> Repeats(s, cur + 1)
    ensures Ascending(s, cur + 1) <==> Ascending(s, cur) && s[cur - 1] <= s[cur]
  {
  }

  lemma NoMore(s: seq<int32>, n: nat)
    requires |s| <= n
    ensures Repeats(s, n) <==> Repeats(s, |s|)
    ensures Ascending(s, n) <==> Ascending(s, |s|)
  {
  }

  lemma ScanEnd(s: seq<int32>, cur: nat, k: nat)
    requires |s| <= cur && k <= |s| && Scanned(s, cur, k)
    ensures Settled(s, k) && (k < |s| ==> Settled(s, k + 1))
  {
  }

  lemma {:induction false} AdjacentSorted(s: seq<int32>)
    requires Ascending(s, |s|)
    ensures Sorted(s)
  {
    if |s| > 0 {
      var n := |s| - 1;
      AdjacentSorted(s[..n]);
      forall i, j | 0 <= i < j < |s|
        ensures s[i] <= s[j]
      {
        if j == n && i < n - 1 {
          assert s[..n][i] <= s[..n][n - 1];
        } else if j < n {
          assert s[..n][i] <= s[..n][j];
        }
      }
    }
  }

  /** isort (lines 191-219): the array in order, and whether it holds a value twice. */
  method ISort(a: array<int32>) returns (r: bool)
    modifies a
    ensures Sorted(a[..]) && Permuted(a[..], old(a[..]))
    ensures r <==> !Strict(a[..])
  {
    r := false;
    var index := true;
    ghost var k := 0;
    while index
      invariant k <= a.Length && Settled(a[..], k)
      invariant Permuted(a[..], old(a[..]))
      invariant r ==> Twins(a[..])
      invariant !index ==> Sorted(a[..]) && (Repeats(a[..], a.Length) ==> r)
      decreases index, a.Length - k
    {
      index, r := Pass(a, r, k);
      if index {
        k := k + 1;
      }
    }
    if Strict(a[..]) {
      StrictNoTwins(a[..]);
    } else {
      SortedRepeats(a[..]);
    }
  }

  lemma {:induction false} SortedRepeats(s: seq<int32>)
    requires Sorted(s) && !Strict(s)
    ensures Repeats(s, |s|)
  {
    var i, j :| 0 <= i < j < |s| && s[i] >= s[j];
    assert s[i] <= s[i + 1] <= s[j];
    assert s[i + 1 - 1] == s[i + 1];
  }

  // ---- _int_unique and PREPAREARR ----

  /** What u keeps of a sorted array, when one more element x comes. */
  lemma UniqueStep(u: seq<int32>, s: seq<int32>, x: int32)
    requires |u| > 0 && Strict(u) && SameMembers(u, s) && u[|u| - 1] <= x
    ensures x == u[|u| - 1] ==> SameMembers(u, s + [x])
    ensures x != u[|u| - 1] ==> Strict(u + [x]) && SameMembers(u + [x], s + [x])
  {
    forall y: int32
      ensures y in s + [x] <==> y in s || y == x
      ensures y in u + [x] <==> y in u || y == x
    {
    }
    Inhabited(u);
  }

  /** _int_unique (lines 279-299): in a sorted array, the first n elements are what it held. */
  method Unique(a: array<int32>, num: nat) returns (n: nat)
    requires num <= a.Length && Sorted(a[..num])
    modifies a
    ensures n <= num && Strict(a[..n]) && SameMembers(a[..n], old(a[..num]))
  {
    hide SameMembers, Strict, Sorted;
    ghost var s := a[..num];
    if num < 2 {
      SmallUnique(s);
      return num;
    }
    var tmp, dr := 0, 0;
    ghost var u := [s[0]];
    SmallUnique(u);
    while tmp < num
      invariant 0 <= dr <= tmp <= num && (tmp > 0 ==> dr < tmp)
      invariant a[..dr + 1] == u && u[dr] == s[if tmp == 0 then 0 else tmp - 1]
      invariant a[tmp..num] == s[tmp..]
      invariant Strict(u) && SameMembers(u, if tmp == 0 then [s[0]] else s[..tmp])
    {
      assert a[tmp] == a[tmp..num][0] == s[tmp];
      assert a[tmp + 1..num] == a[tmp..num][1..] == s[tmp + 1..];
      NextUnique(u, s, tmp);
      if a[tmp] != a[dr] {
        a[dr + 1] := a[tmp];
        dr := dr + 1;
        u := u + [s[tmp]];
      }
      tmp := tmp + 1;
    }
    assert s[..num] == s;
    return dr + 1;
  }

  /** One more element of a sorted list, kept if it is not the last one kept. */
  lemma NextUnique(u: seq<int32>, s: seq<int32>, tmp: nat)
    requires tmp < |s| && Sorted(s) && |u| > 0 && u[|u| - 1] == s[if tmp == 0 then 0 else tmp - 1]
    requires Strict(u) && SameMembers(u, if tmp == 0 then [s[0]] else s[..tmp])
    ensures var u' := if s[tmp] != u[|u| - 1] then u + [s[tmp]] else u;
            Strict(u') && SameMembers(u', s[..tmp + 1]) && u'[|u'| - 1] == s[tmp]
  {
    hide SameMembers, Strict, Sorted;
    if tmp > 0 {
      SortedAt(s, tmp);
      UniqueStep(u, s[..tmp], s[tmp]);
      assert s[..tmp] + [s[tmp]] == s[..tmp + 1];
    }
    assert s[..1] == [s[0]];
  }

  lemma SortedAt(s: seq<int32>, i: nat)
    requires Sorted(s) && 0 < i < |s|
    ensures s[i - 1] <= s[i]
  {
  }

  lemma SmallUnique(s: seq<int32>)
    requires |s| < 2
    ensures Strict(s) && SameMembers(s, s)
  {
  }

  /** PREPAREARR (_int.h:50-55): any array becomes the strictly sorted array of its members. */
  method PrepareArr(a: array<int32>) returns (n: nat)
    modifies a
    ensures n <= a.Length && Strict(a[..n]) && SameMembers(a[..n], old(a[..]))
  {
    n := a.Length;
    ghost var s := a[..];
    if a.Length > 1 {
      var twice := ISort(a);
      SameBag(a[..], s);
      if twice {
        assert a[..a.Length] == a[..];
        n := Unique(a, a.Length);
      }
    }
    assert a[..a.Length] == a[..];
  }

  lemma SameBag(s: seq<int32>, t: seq<int32>)
    requires Permuted(s, t)
    ensures SameMembers(s, t)
  {
    forall x: int32
      ensures x in s <==> x in t
    {
      assert x in multiset(s) <==> x in multiset(t);
    }
  }

  // ---- Comparing two sorted arrays ----

  ghost predicate Subset(s: seq<int32>, t: seq<int32>) {
    forall x: int32 :: x in s ==> x in t
  }

  ghost predicate Meets(s: seq<int32>, t: seq<int32>) {
    exists x: int32 :: x in s && x in t
  }

  /** inner_int_contains (lines 4-40), a empty array being neither container nor contained. */
  method InnerContains(a: array<int32>, na: nat, b: array<int32>, nb: nat) returns (r: bool)
    requires na <= a.Length && nb <= b.Length && Strict(a[..na]) && Strict(b[..nb])
    ensures r <==> na > 0 && nb > 0 && Subset(b[..nb], a[..na])
  {
    if na == 0 || nb == 0 {
      return false;
    }
    var i, j, n := 0, 0, 0;
    var stop := false;
    while i < na && j < nb && !stop
      invariant 0 <= i <= na && 0 <= j <= nb && n == j
      invariant forall k :: 0 <= k < j ==> b[k] in a[..na]
      invariant forall k, l :: 0 <= k < i && j <= l < nb ==> a[k] < b[l]
      invariant stop ==> j < nb && i < na && b[j] < a[i]
      decreases na - i, nb - j, !stop
    {
      if a[i] < b[j] {
        i := i + 1;
      } else if a[i] == b[j] {
        assert a[i] in a[..na];
        n, i, j := n + 1, i + 1, j + 1;
      } else {
        stop := true;
      }
    }
    if n < nb {
      assert b[j] in b[..nb];
      assert b[j] !in a[..na];
    }
    return n == nb;
  }

  /** inner_int_overlap (lines 42-73). */
  method InnerOverlap(a: array<int32>, na: nat, b: array<int32>, nb: nat) returns (r: bool)
    requires na <= a.Length && nb <= b.Length && Sorted(a[..na]) && Sorted(b[..nb])
    ensures r <==> Meets(a[..na], b[..nb])
  {
    if na == 0 || nb == 0 {
      return false;
    }
    var i, j := 0, 0;
    while i < na && j < nb
      invariant 0 <= i <= na && 0 <= j <= nb
      invariant forall k, l :: 0 <= k < i && 0 <= l < nb ==> a[k] != b[l]
      invariant forall k, l :: 0 <= k < na && 0 <= l < j ==> a[k] != b[l]
    {
      if a[i] < b[j] {
        forall l | 0 <= l < nb
          ensures a[i] != b[l]
        {
          assert l >= j ==> b[..nb][j] <= b[..nb][l];
        }
        i := i + 1;
      } else if a[i] == b[j] {
        assert a[i] in a[..na] && b[j] in b[..nb];
        return true;
      } else {
        forall k | 0 <= k < na
          ensures a[k] != b[j]
        {
          assert k >= i ==> a[..na][i] <= a[..na][k];
        }
        j := j + 1;
      }
    }
    Disjoint(a[..na], b[..nb]);
    return false;
  }

  lemma Disjoint(s: seq<int32>, t: seq<int32>)
    requires forall k, l :: 0 <= k < |s| && 0 <= l < |t| ==> s[k] != t[l]
    ensures !Meets(s, t)
  {
    forall x: int32 | x in s
      ensures x !in t
    {
      var k :| 0 <= k < |s| && s[k] == x;
    }
  }

  /** The comparison of g_int_same (_int_gist.c:307-336). */
  method SameArrays(a: array<int32>, na: nat, b: array<int32>, nb: nat) returns (r: bool)
    requires na <= a.Length && nb <= b.Length
    ensures r <==> a[..na] == b[..nb]
  {
    if na != nb {
      return false;
    }
    var n := 0;
    while n < na
      invariant 0 <= n <= na && a[..n] == b[..n]
    {
      if a[n] != b[n] {
        assert a[..na][n] != b[..nb][n];
        return false;
      }
      n := n + 1;
    }
    return true;
  }
}
