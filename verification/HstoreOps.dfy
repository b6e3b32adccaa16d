/** Operators that build a packed hstore out of others (contrib/hstore/hstore_op.c). */
module HstoreOps {
  import opened Hstores

  /** sizeof(HEntry) (hstore.h:15-22). */
  const ENTRY_SIZE: nat := 8

  /** STRPTR (hstore.h:35): where the string of a value with this many entries begins, in bytes
      behind its first entry. */
  function StrPtr(size: nat): nat {
    ENTRY_SIZE * size
  }

  /** What has been written so far of a value with room for all of ed.  pd is its memory from the
      first entry on, byte by byte; the first n entries, kept in ed, stand at its beginning, and
      m bytes of string behind the room for the entries. */
  ghost function Built(ed: array<HEntry>, n: nat, pd: array<char>, m: nat): HStore
    requires n <= ed.Length && StrPtr(ed.Length) + m <= pd.Length
    reads ed, pd
  {
    HStore(ed[..n], pd[StrPtr(ed.Length)..StrPtr(ed.Length) + m])
  }

  /** memcpy of len bytes to the running destination pointer, m bytes behind base. */
  method CopyBytes(pd: array<char>, base: nat, m: nat, str: string, ps: nat, len: nat)
    requires base + m + len <= pd.Length && ps + len <= |str|
    modifies pd
    ensures pd[base..base + m + len] == old(pd[base..base + m]) + str[ps..ps + len]
  {
    ghost var before := pd[base..base + m];
    for k := 0 to len
      invariant pd[base..base + m + k] == before + str[ps..ps + k]
    {
      pd[base + m + k] := str[ps + k];
      assert pd[base..base + m + k + 1] == pd[base..base + m + k] + [str[ps + k]];
      assert str[ps..ps + k + 1] == str[ps..ps + k] + [str[ps + k]];
    }
  }

  /** memmove of len bytes downwards, which may overlap. */
  method MoveDown(pd: array<char>, to: nat, from: nat, len: nat)
    requires to <= from && from + len <= pd.Length
    modifies pd
    ensures pd[to..to + len] == old(pd[from..from + len])
    ensures pd[..to] == old(pd[..to])
  {
    ghost var was := pd[..];
    assert was[from..from + len] == pd[from..from + len];
    for k := 0 to len
      invariant pd[..] == Moved(was, to, from, k)
    {
      pd[to + k] := pd[from + k];
      MovedNext(was, to, from, k);
    }
    assert pd[to..to + len] == pd[..][to..to + len];
    assert pd[..to] == pd[..][..to];
  }

  /** The memory when k bytes have been moved down. */
  ghost function Moved(s: seq<char>, to: nat, from: nat, k: nat): (r: seq<char>)
    requires to <= from && from + k <= |s|
    ensures |r| == |s|
  {
    s[..to] + s[from..from + k] + s[to + k..]
  }

  lemma MovedNext(s: seq<char>, to: nat, from: nat, k: nat)
    requires to <= from && from + k < |s|
    ensures Moved(s, to, from, k)[to + k := Moved(s, to, from, k)[from + k]] == Moved(s, to, from, k + 1)
  {
    assert Moved(s, to, from, k)[from + k] == s[from + k];
  }

  /** Lines 136-146 and 250-260: when there are fewer entries than room, the string moves down
      behind them.  The entries are not overwritten, and the value is the one that was built. */
  method Finish(ed: array<HEntry>, n: nat, pd: array<char>, m: nat) returns (out: HStore)
    requires n <= ed.Length && StrPtr(ed.Length) + m <= pd.Length
    modifies pd
    ensures out == old(Built(ed, n, pd, m))
    ensures pd[..StrPtr(n)] == old(pd[..StrPtr(n)])
    ensures pd[StrPtr(n)..StrPtr(n) + m] == out.str
  {
    var size := ed.Length;
    if n != size {
      var ptrd := StrPtr(size);
      size := n;
      MoveDown(pd, StrPtr(size), ptrd, m);
    }
    out := HStore(ed[..size], pd[StrPtr(size)..StrPtr(size) + m]);
  }

  /** The lines that copy one entry with its bytes and move the destination pointers on, for
      instance lines 191-195: the source pointer ps stands at the entry's key. */
  method CopyEntry(ed: array<HEntry>, n: nat, pd: array<char>, m: nat, s: HStore, i: nat, ps: nat) returns (m': nat)
    requires n < ed.Length && Layout(s) && i < |s.entries|
    requires ps == s.entries[i].pos && StrPtr(ed.Length) + m + Space(s.entries[i]) <= pd.Length
    modifies ed, pd
    ensures m' == m + Space(s.entries[i]) && StrPtr(ed.Length) + m' <= pd.Length
    ensures Built(ed, n + 1, pd, m') == Grown(old(Built(ed, n, pd, m)), s.entries[i], BytesAt(s, i))
  {
    hide Layout, Space;
    EntryAt(s, i);
    ghost var es := ed[..n];
    ed[n] := s.entries[i].(pos := m);
    assert ed[..n + 1] == es + [ed[n]];
    m' := m + Space(s.entries[i]);
    CopyBytes(pd, StrPtr(ed.Length), m, s.str, ps, Space(s.entries[i]));
  }

  lemma Appended(h: HStore, s: HStore, i: nat)
    requires Layout(h) && Layout(s) && i < |s.entries|
    ensures Layout(Grown(h, s.entries[i], BytesAt(s, i)))
    ensures Contents(Grown(h, s.entries[i], BytesAt(s, i))) == Contents(h) + [Contents(s)[i]]
  {
    Append(h, s.entries[i], BytesAt(s, i));
  }

  // ---- delete ----

  ghost function Without(ps: seq<Pair>, n: nat, key: string): seq<Pair>
    requires n <= |ps|
  {
    if n == 0 then []
    else if ps[n - 1].key == key then Without(ps, n - 1, key)
    else Without(ps, n - 1, key) + [ps[n - 1]]
  }

  lemma {:induction false} WithoutMembers(ps: seq<Pair>, n: nat, key: string, p: Pair)
    requires n <= |ps|
    ensures p in Without(ps, n, key) <==> p in ps[..n] && p.key != key
  {
    if n > 0 {
      WithoutMembers(ps, n - 1, key, p);
      assert ps[..n] == ps[..n - 1] + [ps[n - 1]];
    }
  }

  lemma NoneOrdered()
    ensures Ordered([]) && Clean([])
  {
  }

  lemma BeforeLast(ps: seq<Pair>, n: nat, p: Pair)
    requires Ordered(ps) && n < |ps| && p in ps[..n]
    ensures CompareKeys(p.key, ps[n].key) < 0
  {
    var i :| 0 <= i < n && ps[i] == p;
  }

  lemma SnocOrdered(w: seq<Pair>, ps: seq<Pair>, n: nat)
    requires Ordered(w) && Clean(w) && n < |ps| && Clean(ps)
    requires forall i :: 0 <= i < |w| ==> CompareKeys(w[i].key, ps[n].key) < 0
    ensures Ordered(w + [ps[n]]) && Clean(w + [ps[n]])
  {
  }

  lemma {:induction false} WithoutOrdered(ps: seq<Pair>, n: nat, key: string)
    requires n <= |ps| && Ordered(ps) && Clean(ps)
    ensures Ordered(Without(ps, n, key)) && Clean(Without(ps, n, key))
  {
    hide CompareKeys, PairNulFree, Ordered, Clean;
    if n == 0 {
      NoneOrdered();
    } else {
      WithoutOrdered(ps, n - 1, key);
      var w := Without(ps, n - 1, key);
      forall i | 0 <= i < |w|
        ensures CompareKeys(w[i].key, ps[n - 1].key) < 0
      {
        WithoutMembers(ps, n - 1, key, w[i]);
        BeforeLast(ps, n - 1, w[i]);
      }
      SnocOrdered(w, ps, n - 1);
    }
  }

  /** Pairs in key order that have the same members make the same map. */
  lemma MapMember(ps: seq<Pair>, k: string, v: Option<string>)
    requires Ordered(ps) && Clean(ps)
    ensures k in ToMap(ps) && ToMap(ps)[k] == v <==> Pair(k, v) in ps
  {
    hide Ordered, Clean;
    MapOf(ps);
    if Pair(k, v) in ps {
      var i :| 0 <= i < |ps| && ps[i] == Pair(k, v);
      assert ps[i].key == k;
    }
    if k in ToMap(ps) {
      var i :| 0 <= i < |ps| && ps[i].key == k;
      assert ps[i] in ps;
    }
  }

  lemma WithoutMap(ps: seq<Pair>, key: string)
    requires Ordered(ps) && Clean(ps)
    ensures ToMap(Without(ps, |ps|, key)) == ToMap(ps) - {key}
  {
    hide Ordered, Clean, ToMap;
    var w := Without(ps, |ps|, key);
    WithoutOrdered(ps, |ps|, key);
    assert ps[..|ps|] == ps;
    var m, m' := ToMap(ps) - {key}, ToMap(w);
    forall k, v
      ensures Binds(m', k, v) <==> Binds(m, k, v)
    {
      WithoutMembers(ps, |ps|, key, Pair(k, v));
      MapMember(ps, k, v);
      MapMember(w, k, v);
    }
    SameMap(m, m');
  }

  ghost predicate Binds(m: map<string, Option<string>>, k: string, v: Option<string>) {
    k in m && m[k] == v
  }

  lemma SameMap(m: map<string, Option<string>>, m': map<string, Option<string>>)
    requires forall k, v :: Binds(m', k, v) <==> Binds(m, k, v)
    ensures m' == m
  {
    forall k
      ensures k in m ==> k in m' && m'[k] == m[k]
      ensures k in m' ==> k in m
    {
      if k in m {
        assert Binds(m', k, m[k]);
      }
      if k in m' {
        assert Binds(m, k, m'[k]);
      }
    }
  }

  /** delete (lines 101-153): the map without the key; everything else keeps its binding. */
  method Delete(hs: HStore, key: string) returns (out: HStore)
    requires Valid(hs) && NulFree(key)
    ensures Valid(out) && ToMap(Contents(out)) == ToMap(Contents(hs)) - {key}
    ensures InKeyOrder(Contents(out))
  {
    hide Contents, Ordered, Clean, ToMap, Without, Layout, Built, StrPtr, Grown, InKeyOrder;
    ghost var ps := Contents(hs);
    var ed := new HEntry[|hs.entries|](_ => HEntry(0, 0, true, 0));
    var pd := new char[StrPtr(|hs.entries|) + |hs.str|];
    var ptrs, es, n, m := 0, 0, 0, 0;
    NothingBuilt(ed, pd);
    WithoutNone(ps, key);
    while es < |hs.entries|
      invariant 0 <= n <= es <= |hs.entries| && 0 <= m <= ptrs == Offset(hs.entries, es)
      invariant ed.Length == |hs.entries| && pd.Length == StrPtr(ed.Length) + |hs.str| && m <= |hs.str|
      invariant Layout(Built(ed, n, pd, m)) && Contents(Built(ed, n, pd, m)) == Without(ps, es, key)
    {
      hide NulFree, PairNulFree;
      Advance(hs, es);
      EntryAt(hs, es);
      CleanAt(ps, es);
      ghost var h := Built(ed, n, pd, m);
      var e := hs.entries[es];
      WithoutStep(ps, es, key);
      SameKey(hs.str[ptrs..ptrs + e.keylen], key);
      if !(e.keylen == |key| && StrNCmp(hs.str[ptrs..ptrs + e.keylen], key, e.keylen) == 0) {
        m := CopyEntry(ed, n, pd, m, hs, es, ptrs);
        Appended(h, hs, es);
        n := n + 1;
      }
      ptrs := ptrs + Space(e);
      es := es + 1;
    }
    out := Finish(ed, n, pd, m);
    WithoutOrdered(ps, |ps|, key);
    WithoutMap(ps, key);
    OrderedExact(Contents(out));
  }

  lemma EmptyBuilt()
    ensures Layout(HStore([], [])) && Contents(HStore([], [])) == []
  {
  }

  lemma NothingBuilt(ed: array<HEntry>, pd: array<char>)
    requires StrPtr(ed.Length) <= pd.Length
    ensures Layout(Built(ed, 0, pd, 0)) && Contents(Built(ed, 0, pd, 0)) == []
  {
    EmptyBuilt();
    assert Built(ed, 0, pd, 0) == HStore([], []);
  }

  lemma WithoutNone(ps: seq<Pair>, key: string)
    ensures Without(ps, 0, key) == []
  {
  }

  lemma WithoutStep(ps: seq<Pair>, n: nat, key: string)
    requires n < |ps|
    ensures Without(ps, n + 1, key)
         == if ps[n].key == key then Without(ps, n, key) else Without(ps, n, key) + [ps[n]]
  {
  }

  lemma CleanAt(ps: seq<Pair>, i: nat)
    requires Clean(ps) && i < |ps|
    ensures NulFree(ps[i].key)
  {
    assert PairNulFree(ps[i]);
  }

  lemma SameKey(a: string, b: string)
    requires NulFree(a)
    ensures |a| == |b| && StrNCmp(a, b, |a|) == 0 <==> a == b
  {
    if |a| == |b| {
      CmpZero(a, b);
    }
  }

  /** A running pointer into the string stands at the next entry. */
  lemma Advance(hs: HStore, i: nat)
    requires Layout(hs) && i < |hs.entries|
    ensures hs.entries[i].pos == Offset(hs.entries, i)
    ensures Offset(hs.entries, i + 1) == Offset(hs.entries, i) + Space(hs.entries[i]) <= |hs.str|
  {
    hide Space;
    OffsetGrows(hs.entries, i, |hs.entries|);
  }

  // ---- hs_concat ----

  /** What remains to be written when i pairs of p and j pairs of q have been dealt with. */
  ghost function Merge(p: seq<Pair>, i: nat, q: seq<Pair>, j: nat): seq<Pair>
    requires i <= |p| && j <= |q|
    decreases |p| - i + |q| - j
  {
    if i == |p| then q[j..]
    else if j == |q| then p[i..]
    else
      var difference := CompareKeys(p[i].key, q[j].key);
      if difference == 0 then [q[j]] + Merge(p, i + 1, q, j + 1)
      else if difference > 0 then [q[j]] + Merge(p, i, q, j + 1)
      else [p[i]] + Merge(p, i + 1, q, j)
  }

  ghost predicate HasKey(ps: seq<Pair>, i: nat, key: string) {
    exists k :: i <= k < |ps| && ps[k].key == key
  }

  ghost predicate HasPair(ps: seq<Pair>, i: nat, x: Pair) {
    exists k :: i <= k < |ps| && ps[k] == x
  }

  lemma HasNext(ps: seq<Pair>, i: nat, x: Pair)
    requires i < |ps|
    ensures HasPair(ps, i, x) <==> ps[i] == x || HasPair(ps, i + 1, x)
    ensures HasKey(ps, i, x.key) <==> ps[i].key == x.key || HasKey(ps, i + 1, x.key)
  {
  }

  lemma NoneLeft(ps: seq<Pair>, x: Pair)
    ensures !HasPair(ps, |ps|, x) && !HasKey(ps, |ps|, x.key)
  {
  }

  lemma PairKey(ps: seq<Pair>, i: nat, x: Pair)
    ensures HasPair(ps, i, x) ==> HasKey(ps, i, x.key)
  {
    if HasPair(ps, i, x) {
      var k :| i <= k < |ps| && ps[k] == x;
      assert ps[k].key == x.key;
    }
  }

  lemma NotLater(ps: seq<Pair>, i: nat)
    requires Ordered(ps) && Clean(ps) && i < |ps|
    ensures !HasKey(ps, i + 1, ps[i].key)
  {
    forall k | i < k < |ps|
      ensures ps[k].key != ps[i].key
    {
      DistinctKeys(ps, i, k);
    }
  }

  /** Nothing from i on has a key that is smaller than the one at i. */
  lemma SmallerKey(ps: seq<Pair>, i: nat, key: string)
    requires Ordered(ps) && Clean(ps) && NulFree(key) && i < |ps| && CompareKeys(key, ps[i].key) < 0
    ensures !HasKey(ps, i, key)
  {
    forall k | i <= k < |ps|
      ensures ps[k].key != key
    {
      if k > i {
        KeyTrans(key, ps[i].key, ps[k].key);
      }
      KeyOrder(key, key);
    }
  }

  /** The first pair of the merge and what follows it. */
  lemma MergeHead(p: seq<Pair>, i: nat, q: seq<Pair>, j: nat, x: Pair)
    requires i < |p| && j < |q|
    ensures CompareKeys(p[i].key, q[j].key) == 0 ==>
              (x in Merge(p, i, q, j) <==> x == q[j] || x in Merge(p, i + 1, q, j + 1))
    ensures CompareKeys(p[i].key, q[j].key) > 0 ==>
              (x in Merge(p, i, q, j) <==> x == q[j] || x in Merge(p, i, q, j + 1))
    ensures CompareKeys(p[i].key, q[j].key) < 0 ==>
              (x in Merge(p, i, q, j) <==> x == p[i] || x in Merge(p, i + 1, q, j))
  {
    hide CompareKeys;
  }

  /** The pairs of the merge: those of q, and those of p whose key q does not have. */
  lemma {:induction false} MergeMembers(p: seq<Pair>, i: nat, q: seq<Pair>, j: nat, x: Pair)
    requires Ordered(p) && Clean(p) && Ordered(q) && Clean(q) && i <= |p| && j <= |q|
    ensures x in Merge(p, i, q, j) <==> HasPair(q, j, x) || (HasPair(p, i, x) && !HasKey(q, j, x.key))
    decreases |p| - i + |q| - j, 1
  {
    hide Ordered, Clean, HasPair, HasKey, CompareKeys;
    NoneLeft(p, x);
    NoneLeft(q, x);
    if i == |p| {
      Tail(q, j, x);
    } else if j == |q| {
      Tail(p, i, x);
    } else {
      MergeMembersNext(p, i, q, j, x);
    }
  }

  lemma {:induction false} MergeMembersNext(p: seq<Pair>, i: nat, q: seq<Pair>, j: nat, x: Pair)
    requires Ordered(p) && Clean(p) && Ordered(q) && Clean(q) && i < |p| && j < |q|
    ensures x in Merge(p, i, q, j) <==> HasPair(q, j, x) || (HasPair(p, i, x) && !HasKey(q, j, x.key))
    decreases |p| - i + |q| - j, 0
  {
    hide Ordered, Clean, CompareKeys, HasPair, HasKey, Merge, NulFree;
    CleanAt(p, i);
    CleanAt(q, j);
    KeyOrder(p[i].key, q[j].key);
    MergeHead(p, i, q, j, x);
    HasNext(p, i, x);
    HasNext(q, j, x);
    PairKey(p, i, x);
    PairKey(p, i + 1, x);
    var difference := CompareKeys(p[i].key, q[j].key);
    if difference == 0 {
      NotLater(p, i);
      MergeMembers(p, i + 1, q, j + 1, x);
    } else if difference > 0 {
      MergeMembers(p, i, q, j + 1, x);
      KeyOrder(q[j].key, p[i].key);
      SmallerKey(p, i, q[j].key);
    } else {
      MergeMembers(p, i + 1, q, j, x);
      SmallerKey(q, j, p[i].key);
    }
  }

  lemma Tail(ps: seq<Pair>, i: nat, x: Pair)
    requires i <= |ps|
    ensures x in ps[i..] <==> HasPair(ps, i, x)
  {
    if x in ps[i..] {
      var k :| 0 <= k < |ps| - i && ps[i..][k] == x;
      assert ps[i + k] == x;
    }
    if HasPair(ps, i, x) {
      var k :| i <= k < |ps| && ps[k] == x;
      assert ps[i..][k - i] == x;
    }
  }

  ghost predicate Below(b: string, ps: seq<Pair>, i: nat) {
    forall k :: i <= k < |ps| ==> CompareKeys(b, ps[k].key) < 0
  }

  lemma BelowNext(b: string, ps: seq<Pair>, i: nat)
    requires i < |ps| && Ordered(ps) && CompareKeys(b, ps[i].key) < 0
    ensures Below(b, ps, i)
  {
    forall k | i < k < |ps|
      ensures CompareKeys(b, ps[k].key) < 0
    {
      KeyTrans(b, ps[i].key, ps[k].key);
    }
  }

  lemma BelowSelf(ps: seq<Pair>, i: nat)
    requires i < |ps| && Ordered(ps)
    ensures Below(ps[i].key, ps, i + 1)
  {
  }

  lemma ConsOrdered(x: Pair, ps: seq<Pair>)
    requires Ordered(ps) && Clean(ps) && PairNulFree(x) && Below(x.key, ps, 0)
    ensures Ordered([x] + ps) && Clean([x] + ps)
  {
  }

  lemma TailOrdered(ps: seq<Pair>, i: nat)
    requires Ordered(ps) && Clean(ps) && i <= |ps|
    ensures Ordered(ps[i..]) && Clean(ps[i..])
  {
  }

  lemma {:induction false} MergeOrdered(p: seq<Pair>, i: nat, q: seq<Pair>, j: nat)
    requires Ordered(p) && Clean(p) && Ordered(q) && Clean(q) && i <= |p| && j <= |q|
    ensures Ordered(Merge(p, i, q, j)) && Clean(Merge(p, i, q, j))
    decreases |p| - i + |q| - j
  {
    hide Ordered, Clean, CompareKeys, Below, PairNulFree;
    if i == |p| {
      TailOrdered(q, j);
    } else if j == |q| {
      TailOrdered(p, i);
    } else {
      PairAtClean(p, i);
      PairAtClean(q, j);
      KeyOrder(p[i].key, q[j].key);
      KeyOrder(q[j].key, p[i].key);
      BelowSelf(p, i);
      BelowSelf(q, j);
      var difference := CompareKeys(p[i].key, q[j].key);
      if difference == 0 {
        MergeOrdered(p, i + 1, q, j + 1);
        MergeBelow(q[j].key, p, i + 1, q, j + 1);
        ConsOrdered(q[j], Merge(p, i + 1, q, j + 1));
      } else if difference > 0 {
        MergeOrdered(p, i, q, j + 1);
        BelowNext(q[j].key, p, i);
        MergeBelow(q[j].key, p, i, q, j + 1);
        ConsOrdered(q[j], Merge(p, i, q, j + 1));
      } else {
        MergeOrdered(p, i + 1, q, j);
        BelowNext(p[i].key, q, j);
        MergeBelow(p[i].key, p, i + 1, q, j);
        ConsOrdered(p[i], Merge(p, i + 1, q, j));
      }
    }
  }

  lemma PairAtClean(ps: seq<Pair>, i: nat)
    requires Clean(ps) && i < |ps|
    ensures PairNulFree(ps[i]) && NulFree(ps[i].key)
  {
  }

  lemma MergeBelow(b: string, p: seq<Pair>, i: nat, q: seq<Pair>, j: nat)
    requires Ordered(p) && Clean(p) && Ordered(q) && Clean(q) && i <= |p| && j <= |q|
    requires Below(b, p, i) && Below(b, q, j)
    ensures Below(b, Merge(p, i, q, j), 0)
  {
    hide Ordered, Clean, CompareKeys, Merge;
    var r := Merge(p, i, q, j);
    forall k | 0 <= k < |r|
      ensures CompareKeys(b, r[k].key) < 0
    {
      MergeMembers(p, i, q, j, r[k]);
      assert r[k] in r;
    }
  }

  /** The merge of two values in key order is the union of their maps, the second winning. */
  lemma MergeMap(p: seq<Pair>, q: seq<Pair>)
    requires Ordered(p) && Clean(p) && Ordered(q) && Clean(q)
    ensures ToMap(Merge(p, 0, q, 0)) == ToMap(p) + ToMap(q)
  {
    hide Ordered, Clean, ToMap, Merge;
    var r := Merge(p, 0, q, 0);
    MergeOrdered(p, 0, q, 0);
    var m, m' := ToMap(p) + ToMap(q), ToMap(r);
    forall k, v
      ensures Binds(m', k, v) <==> Binds(m, k, v)
    {
      MapMember(r, k, v);
      MapMember(p, k, v);
      MapMember(q, k, v);
      MergeMembers(p, 0, q, 0, Pair(k, v));
      Tail(p, 0, Pair(k, v));
      Tail(q, 0, Pair(k, v));
      assert p[0..] == p && q[0..] == q;
      KeyInMap(q, k);
    }
    SameMap(m, m');
  }

  lemma KeyInMap(ps: seq<Pair>, k: string)
    requires Ordered(ps) && Clean(ps)
    ensures k in ToMap(ps) <==> HasKey(ps, 0, k)
  {
    hide Ordered, Clean;
    MapOf(ps);
    if HasKey(ps, 0, k) {
      var i :| 0 <= i < |ps| && ps[i].key == k;
    }
  }

  /** Writing a pair turns what remains into what is left of it. */
  ghost predicate Remaining(done: seq<Pair>, p: seq<Pair>, i: nat, q: seq<Pair>, j: nat)
  {
    i <= |p| && j <= |q| && done + Merge(p, i, q, j) == Merge(p, 0, q, 0)
  }

  lemma RemainingStart(p: seq<Pair>, q: seq<Pair>)
    ensures Remaining([], p, 0, q, 0)
  {
    assert [] + Merge(p, 0, q, 0) == Merge(p, 0, q, 0);
  }

  lemma RemainingDone(done: seq<Pair>, p: seq<Pair>, q: seq<Pair>)
    requires Remaining(done, p, |p|, q, |q|)
    ensures done == Merge(p, 0, q, 0)
  {
    assert done + [] == done;
  }

  lemma RemainingStep(done: seq<Pair>, p: seq<Pair>, i: nat, q: seq<Pair>, j: nat)
    requires Remaining(done, p, i, q, j)
    ensures i < |p| && j < |q| && CompareKeys(p[i].key, q[j].key) == 0 ==>
              Remaining(done + [q[j]], p, i + 1, q, j + 1)
    ensures i < |p| && j < |q| && CompareKeys(p[i].key, q[j].key) < 0 ==>
              Remaining(done + [p[i]], p, i + 1, q, j)
    ensures i < |p| && j < |q| && CompareKeys(p[i].key, q[j].key) > 0 ==>
              Remaining(done + [q[j]], p, i, q, j + 1)
    ensures i < |p| && j == |q| ==> Remaining(done + [p[i]], p, i + 1, q, j)
    ensures i == |p| && j < |q| ==> Remaining(done + [q[j]], p, i, q, j + 1)
  {
    hide CompareKeys;
    if i < |p| {
      assert p[i..] == [p[i]] + p[i + 1..];
      Regroup(done, p[i], Merge(p, i + 1, q, j));
    }
    if j < |q| {
      assert q[j..] == [q[j]] + q[j + 1..];
      Regroup(done, q[j], Merge(p, i, q, j + 1));
      if i < |p| {
        Regroup(done, q[j], Merge(p, i + 1, q, j + 1));
      }
    }
  }

  lemma Regroup(done: seq<Pair>, x: Pair, rest: seq<Pair>)
    ensures done + ([x] + rest) == (done + [x]) + rest
  {
  }

  /** Lines 184-187. */
  method CompareEntries(s1: HStore, i: nat, s2: HStore, j: nat) returns (difference: int)
    requires Layout(s1) && Layout(s2) && i < |s1.entries| && j < |s2.entries|
    ensures difference == CompareKeys(Contents(s1)[i].key, Contents(s2)[j].key)
  {
    hide Layout, Contents, StrNCmp;
    EntryAt(s1, i);
    EntryAt(s2, j);
    var e1, e2 := s1.entries[i], s2.entries[j];
    if e1.keylen == e2.keylen {
      difference := StrNCmp(s1.str[e1.pos..e1.pos + e1.keylen], s2.str[e2.pos..e2.pos + e2.keylen], e1.keylen);
    } else {
      difference := if e1.keylen > e2.keylen then 1 else -1;
    }
  }

  /** The pointers of hs_concat: into the sources, and behind what has been written. */
  ghost predicate Pointers(s1: HStore, ps1: nat, es1: nat, s2: HStore, ps2: nat, es2: nat,
                           ed: array<HEntry>, n: nat, pd: array<char>, m: nat)
  {
    && Layout(s1) && Layout(s2) && es1 <= |s1.entries| && es2 <= |s2.entries|
    && ps1 == Offset(s1.entries, es1) && ps2 == Offset(s2.entries, es2)
    && n <= es1 + es2 && m <= ps1 + ps2
    && ed.Length == |s1.entries| + |s2.entries| && pd.Length == StrPtr(ed.Length) + |s1.str| + |s2.str|
    && ps1 <= |s1.str| && ps2 <= |s2.str|
  }

  /** The pointers when one entry of either source has been dealt with. */
  lemma PointersMove(s1: HStore, ps1: nat, es1: nat, s2: HStore, ps2: nat, es2: nat,
                     ed: array<HEntry>, n: nat, pd: array<char>, m: nat)
    requires Pointers(s1, ps1, es1, s2, ps2, es2, ed, n, pd, m)
    ensures n <= ed.Length && StrPtr(ed.Length) + m <= pd.Length
    ensures es1 < |s1.entries| ==>
              var a := Space(s1.entries[es1]);
              && s1.entries[es1].pos == ps1 && n < ed.Length && StrPtr(ed.Length) + m + a <= pd.Length
              && Pointers(s1, ps1 + a, es1 + 1, s2, ps2, es2, ed, n + 1, pd, m + a)
    ensures es2 < |s2.entries| ==>
              var b := Space(s2.entries[es2]);
              && s2.entries[es2].pos == ps2 && n < ed.Length && StrPtr(ed.Length) + m + b <= pd.Length
              && Pointers(s1, ps1, es1, s2, ps2 + b, es2 + 1, ed, n + 1, pd, m + b)
    ensures es1 < |s1.entries| && es2 < |s2.entries| ==>
              var (a, b) := (Space(s1.entries[es1]), Space(s2.entries[es2]));
              Pointers(s1, ps1 + a, es1 + 1, s2, ps2 + b, es2 + 1, ed, n + 1, pd, m + b)
  {
    hide Layout, Space, Offset;
    if es1 < |s1.entries| {
      Advance(s1, es1);
    }
    if es2 < |s2.entries| {
      Advance(s2, es2);
    }
  }

  /** What the loops of hs_concat keep. */
  ghost predicate Merging(s1: HStore, ps1: nat, es1: nat, s2: HStore, ps2: nat, es2: nat,
                          ed: array<HEntry>, n: nat, pd: array<char>, m: nat)
    requires Layout(s1) && Layout(s2)
    reads ed, pd
  {
    && Pointers(s1, ps1, es1, s2, ps2, es2, ed, n, pd, m)
    && n <= ed.Length && StrPtr(ed.Length) + m <= pd.Length && Layout(Built(ed, n, pd, m))
    && Remaining(Contents(Built(ed, n, pd, m)), Contents(s1), es1, Contents(s2), es2)
  }

  /** Lines 215-222 and 228-235. */
  method TakeFirst(s1: HStore, ps1: nat, es1: nat, s2: HStore, ghost ps2: nat, ghost es2: nat,
                   ed: array<HEntry>, n: nat, pd: array<char>, m: nat)
    returns (ps1': nat, m': nat)
    requires Layout(s1) && Layout(s2) && es1 < |s1.entries| && es2 <= |s2.entries|
    requires es2 < |s2.entries| ==> CompareKeys(Contents(s1)[es1].key, Contents(s2)[es2].key) < 0
    requires Merging(s1, ps1, es1, s2, ps2, es2, ed, n, pd, m)
    modifies ed, pd
    ensures Merging(s1, ps1', es1 + 1, s2, ps2, es2, ed, n + 1, pd, m')
  {
    hide Layout, Contents, Remaining, Pointers, CompareKeys, Space, Grown;
    PointersMove(s1, ps1, es1, s2, ps2, es2, ed, n, pd, m);
    ghost var h := Built(ed, n, pd, m);
    RemainingStep(Contents(h), Contents(s1), es1, Contents(s2), es2);
    m' := CopyEntry(ed, n, pd, m, s1, es1, ps1);
    Appended(h, s1, es1);
    ps1' := ps1 + Space(s1.entries[es1]);
  }

  /** Lines 204-211 and 240-247. */
  method TakeSecond(s1: HStore, ghost ps1: nat, ghost es1: nat, s2: HStore, ps2: nat, es2: nat,
                    ed: array<HEntry>, n: nat, pd: array<char>, m: nat)
    returns (ps2': nat, m': nat)
    requires Layout(s1) && Layout(s2) && es1 <= |s1.entries| && es2 < |s2.entries|
    requires es1 < |s1.entries| ==> CompareKeys(Contents(s1)[es1].key, Contents(s2)[es2].key) > 0
    requires Merging(s1, ps1, es1, s2, ps2, es2, ed, n, pd, m)
    modifies ed, pd
    ensures Merging(s1, ps1, es1, s2, ps2', es2 + 1, ed, n + 1, pd, m')
  {
    hide Layout, Contents, Remaining, Pointers, CompareKeys, Space, Grown;
    PointersMove(s1, ps1, es1, s2, ps2, es2, ed, n, pd, m);
    ghost var h := Built(ed, n, pd, m);
    RemainingStep(Contents(h), Contents(s1), es1, Contents(s2), es2);
    m' := CopyEntry(ed, n, pd, m, s2, es2, ps2);
    Appended(h, s2, es2);
    ps2' := ps2 + Space(s2.entries[es2]);
  }

  /** Lines 191-200: one key in both, the second value wins. */
  method TakeBoth(s1: HStore, ps1: nat, es1: nat, s2: HStore, ps2: nat, es2: nat,
                  ed: array<HEntry>, n: nat, pd: array<char>, m: nat)
    returns (ps1': nat, ps2': nat, m': nat)
    requires Layout(s1) && Layout(s2) && es1 < |s1.entries| && es2 < |s2.entries|
    requires CompareKeys(Contents(s1)[es1].key, Contents(s2)[es2].key) == 0
    requires Merging(s1, ps1, es1, s2, ps2, es2, ed, n, pd, m)
    modifies ed, pd
    ensures Merging(s1, ps1', es1 + 1, s2, ps2', es2 + 1, ed, n + 1, pd, m')
  {
    hide Layout, Contents, Remaining, Pointers, CompareKeys, Space, Grown;
    PointersMove(s1, ps1, es1, s2, ps2, es2, ed, n, pd, m);
    ghost var h := Built(ed, n, pd, m);
    RemainingStep(Contents(h), Contents(s1), es1, Contents(s2), es2);
    m' := CopyEntry(ed, n, pd, m, s2, es2, ps2);
    Appended(h, s2, es2);
    ps1' := ps1 + Space(s1.entries[es1]);
    ps2' := ps2 + Space(s2.entries[es2]);
  }

  /** hs_concat (lines 155-266): the union of the two maps, the second winning. */
  method HsConcat(s1: HStore, s2: HStore) returns (out: HStore)
    requires Valid(s1) && Valid(s2)
    ensures Valid(out) && ToMap(Contents(out)) == ToMap(Contents(s1)) + ToMap(Contents(s2))
    ensures InKeyOrder(Contents(out))
  {
    hide Contents, Ordered, Clean, ToMap, Merging, Layout, CompareKeys, Built;
    ghost var p, q := Contents(s1), Contents(s2);
    var ed := new HEntry[|s1.entries| + |s2.entries|](_ => HEntry(0, 0, true, 0));
    var pd := new char[StrPtr(ed.Length) + |s1.str| + |s2.str|];
    var ps1: nat, es1: nat, ps2: nat, es2: nat, n: nat, m: nat := 0, 0, 0, 0, 0, 0;
    MergingStart(s1, s2, ed, pd);
    while es1 < |s1.entries| && es2 < |s2.entries|
      invariant es1 <= |s1.entries| && es2 <= |s2.entries|
      invariant Merging(s1, ps1, es1, s2, ps2, es2, ed, n, pd, m)
      decreases |s1.entries| + |s2.entries| - es1 - es2
    {
      var difference := CompareEntries(s1, es1, s2, es2);
      if difference == 0 {
        ps1, ps2, m := TakeBoth(s1, ps1, es1, s2, ps2, es2, ed, n, pd, m);
        es1, es2 := es1 + 1, es2 + 1;
      } else if difference > 0 {
        ps2, m := TakeSecond(s1, ps1, es1, s2, ps2, es2, ed, n, pd, m);
        es2 := es2 + 1;
      } else {
        ps1, m := TakeFirst(s1, ps1, es1, s2, ps2, es2, ed, n, pd, m);
        es1 := es1 + 1;
      }
      n := n + 1;
    }
    while es1 < |s1.entries|
      invariant es1 <= |s1.entries| && es2 <= |s2.entries| && (es1 == |s1.entries| || es2 == |s2.entries|)
      invariant Merging(s1, ps1, es1, s2, ps2, es2, ed, n, pd, m)
    {
      ps1, m := TakeFirst(s1, ps1, es1, s2, ps2, es2, ed, n, pd, m);
      es1, n := es1 + 1, n + 1;
    }
    while es2 < |s2.entries|
      invariant es1 == |s1.entries| && es2 <= |s2.entries|
      invariant Merging(s1, ps1, es1, s2, ps2, es2, ed, n, pd, m)
    {
      ps2, m := TakeSecond(s1, ps1, es1, s2, ps2, es2, ed, n, pd, m);
      es2, n := es2 + 1, n + 1;
    }
    MergingEnd(s1, ps1, s2, ps2, ed, n, pd, m);
    out := Finish(ed, n, pd, m);
    MergeOrdered(p, 0, q, 0);
    MergeMap(p, q);
    OrderedExact(Contents(out));
  }

  lemma MergingStart(s1: HStore, s2: HStore, ed: array<HEntry>, pd: array<char>)
    requires Layout(s1) && Layout(s2)
    requires ed.Length == |s1.entries| + |s2.entries| && pd.Length == StrPtr(ed.Length) + |s1.str| + |s2.str|
    ensures Merging(s1, 0, 0, s2, 0, 0, ed, 0, pd, 0)
  {
    hide Contents, Remaining;
    NothingBuilt(ed, pd);
    RemainingStart(Contents(s1), Contents(s2));
  }

  lemma MergingEnd(s1: HStore, ps1: nat, s2: HStore, ps2: nat, ed: array<HEntry>, n: nat, pd: array<char>, m: nat)
    requires Layout(s1) && Layout(s2)
    requires Merging(s1, ps1, |s1.entries|, s2, ps2, |s2.entries|, ed, n, pd, m)
    ensures n <= ed.Length && StrPtr(ed.Length) + m <= pd.Length && Layout(Built(ed, n, pd, m))
    ensures Contents(Built(ed, n, pd, m)) == Merge(Contents(s1), 0, Contents(s2), 0)
  {
    hide Contents, Remaining, Layout;
    RemainingDone(Contents(Built(ed, n, pd, m)), Contents(s1), Contents(s2));
  }
}
