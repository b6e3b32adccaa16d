/** The packed form of an hstore value (contrib/hstore/hstore.h): entries in key order over one
    string that holds every key followed by its value.
 */
module Hstores {

  datatype Option<T> = None | Some(value: T)

  type uint16 = x: nat | x < 0x1_0000

  /** HEntry (hstore.h:15-22). */
  datatype HEntry = HEntry(keylen: uint16, vallen: uint16, valisnull: bool, pos: nat)

  datatype HStore = HStore(entries: seq<HEntry>, str: string)

  /** A key and what it is bound to; None stands for a null value. */
  datatype Pair = Pair(key: string, val: Option<string>)

  // ---- Comparing keys ----

  /** strncmp of the C library on the first n bytes. */
  function StrNCmp(a: string, b: string, n: nat): int
    requires n <= |a| && n <= |b|
  {
    if n == 0 then 0
    else if a[0] != b[0] then a[0] as int - b[0] as int
    else if a[0] == '\0' then 0
    else StrNCmp(a[1..], b[1..], n - 1)
  }

  /** Shorter keys come first; keys of one length are ordered by their bytes. */
  function CompareKeys(a: string, b: string): int {
    if |a| == |b| then StrNCmp(a, b, |a|)
    else if |a| > |b| then 1 else -1
  }

  ghost predicate NulFree(s: string) {
    forall i :: 0 <= i < |s| ==> s[i] != '\0'
  }

  lemma {:induction false} CmpZero(a: string, b: string)
    requires |a| == |b| && NulFree(a)
    ensures StrNCmp(a, b, |a|) == 0 <==> a == b
  {
    if |a| > 0 {
      CmpZero(a[1..], b[1..]);
      assert a == [a[0]] + a[1..] && b == [b[0]] + b[1..];
    }
  }

  lemma {:induction false} CmpFlip(a: string, b: string, n: nat)
    requires n <= |a| && n <= |b|
    ensures StrNCmp(a, b, n) == -StrNCmp(b, a, n)
  {
    if n > 0 && a[0] == b[0] && a[0] != '\0' {
      CmpFlip(a[1..], b[1..], n - 1);
    }
  }

  lemma {:induction false} CmpTrans(a: string, b: string, c: string, n: nat)
    requires n <= |a| && n <= |b| && n <= |c|
    requires StrNCmp(a, b, n) < 0 && StrNCmp(b, c, n) < 0
    ensures StrNCmp(a, c, n) < 0
  {
    if a[0] == b[0] == c[0] {
      CmpTrans(a[1..], b[1..], c[1..], n - 1);
    }
  }

  /** On keys without NUL the comparison is a strict total order. */
  lemma KeyOrder(a: string, b: string)
    requires NulFree(a) && NulFree(b)
    ensures CompareKeys(a, b) == 0 <==> a == b
    ensures CompareKeys(a, b) < 0 <==> CompareKeys(b, a) > 0
  {
    if |a| == |b| {
      CmpZero(a, b);
      CmpFlip(a, b, |a|);
    }
  }

  lemma KeyTrans(a: string, b: string, c: string)
    requires CompareKeys(a, b) < 0 && CompareKeys(b, c) < 0
    ensures CompareKeys(a, c) < 0
  {
    if |a| == |b| == |c| {
      CmpTrans(a, b, c, |a|);
    }
  }

  /** The keys agree before position k, where a has the smaller byte. */
  ghost predicate SmallerAt(a: string, b: string, k: nat) {
    k < |a| && k < |b| && a[..k] == b[..k] && a[k] < b[k]
  }

  /** Shorter, or of the same length and smaller at the first byte that differs. */
  ghost predicate KeyBefore(a: string, b: string) {
    |a| < |b| || (|a| == |b| && exists k :: SmallerAt(a, b, k))
  }

  lemma {:induction false} CmpSmaller(a: string, b: string)
    requires |a| == |b| && NulFree(a)
    ensures StrNCmp(a, b, |a|) < 0 <==> exists k :: SmallerAt(a, b, k)
  {
    if |a| > 0 {
      CmpSmaller(a[1..], b[1..]);
      if a[0] < b[0] {
        assert SmallerAt(a, b, 0);
      } else if a[0] == b[0] {
        forall k: nat | SmallerAt(a[1..], b[1..], k)
          ensures SmallerAt(a, b, k + 1)
        {
          assert a[..k + 1] == [a[0]] + a[1..][..k] && b[..k + 1] == [b[0]] + b[1..][..k];
        }
        forall k: nat | SmallerAt(a, b, k)
          ensures k > 0 && SmallerAt(a[1..], b[1..], k - 1)
        {
          assert a[1..][..k - 1] == a[..k][1..] && b[1..][..k - 1] == b[..k][1..];
        }
      } else {
        forall k: nat
          ensures !SmallerAt(a, b, k)
        {
          assert 0 < k < |a| ==> a[..k][0] != b[..k][0];
        }
      }
    }
  }

  /** Which order it is. */
  lemma KeyOrderExact(a: string, b: string)
    requires NulFree(a) && NulFree(b)
    ensures CompareKeys(a, b) < 0 <==> KeyBefore(a, b)
  {
    if |a| == |b| {
      CmpSmaller(a, b);
    }
  }

  // ---- Layout ----

  /** Bytes that an entry takes up: null values take none, whatever vallen says. */
  function Space(e: HEntry): nat {
    e.keylen + if e.valisnull then 0 else e.vallen
  }

  ghost function Offset(es: seq<HEntry>, n: nat): nat
    requires n <= |es|
  {
    if n == 0 then 0 else Offset(es, n - 1) + Space(es[n - 1])
  }

  /** The entries lie in the string one after the other without gaps. */
  ghost predicate Layout(h: HStore) {
    && |h.str| == Offset(h.entries, |h.entries|)
    && forall i :: 0 <= i < |h.entries| ==> h.entries[i].pos == Offset(h.entries, i)
  }

  lemma {:induction false} OffsetGrows(es: seq<HEntry>, m: nat, n: nat)
    requires m <= n <= |es|
    ensures Offset(es, m) <= Offset(es, n)
    ensures m < n ==> Offset(es, m) + Space(es[m]) <= Offset(es, n)
    decreases n
  {
    if m < n {
      OffsetGrows(es, m, n - 1);
    }
  }

  lemma {:induction false} OffsetBefore(es: seq<HEntry>, e: HEntry, n: nat)
    requires n <= |es|
    ensures Offset(es + [e], n) == Offset(es, n)
  {
    if n > 0 {
      OffsetBefore(es, e, n - 1);
      assert (es + [e])[n - 1] == es[n - 1];
    }
  }

  /** The pair that an entry makes of its bytes. */
  ghost function PairOf(e: HEntry, bytes: string): Pair
    requires |bytes| == Space(e)
  {
    Pair(bytes[..e.keylen], if e.valisnull then None else Some(bytes[e.keylen..]))
  }

  ghost function BytesAt(h: HStore, i: nat): (b: string)
    requires Layout(h) && i < |h.entries|
    ensures |b| == Space(h.entries[i])
  {
    OffsetGrows(h.entries, i, |h.entries|);
    h.str[h.entries[i].pos..h.entries[i].pos + Space(h.entries[i])]
  }

  ghost function PairAt(h: HStore, i: nat): Pair
    requires Layout(h) && i < |h.entries|
  {
    PairOf(h.entries[i], BytesAt(h, i))
  }

  ghost function Contents(h: HStore): (r: seq<Pair>)
    requires Layout(h)
    ensures |r| == |h.entries|
  {
    seq(|h.entries|, i requires 0 <= i < |h.entries| => PairAt(h, i))
  }

  /** Keys in strictly ascending order, so each at most once. */
  ghost predicate Ordered(ps: seq<Pair>) {
    forall i, j :: 0 <= i < j < |ps| ==> CompareKeys(ps[i].key, ps[j].key) < 0
  }

  ghost predicate PairNulFree(p: Pair) {
    NulFree(p.key) && (p.val.Some? ==> NulFree(p.val.value))
  }

  ghost predicate Clean(ps: seq<Pair>) {
    forall i :: 0 <= i < |ps| ==> PairNulFree(ps[i])
  }

  /** What every stored hstore satisfies. */
  ghost predicate Valid(h: HStore) {
    Layout(h) && Ordered(Contents(h)) && Clean(Contents(h))
  }

  ghost predicate InKeyOrder(ps: seq<Pair>) {
    forall i, j :: 0 <= i < j < |ps| ==> KeyBefore(ps[i].key, ps[j].key)
  }

  lemma OrderedExact(ps: seq<Pair>)
    requires Clean(ps)
    ensures Ordered(ps) <==> InKeyOrder(ps)
  {
    hide CompareKeys, KeyBefore, NulFree;
    forall i, j | 0 <= i < j < |ps|
      ensures CompareKeys(ps[i].key, ps[j].key) < 0 <==> KeyBefore(ps[i].key, ps[j].key)
    {
      assert PairNulFree(ps[i]) && PairNulFree(ps[j]);
      KeyOrderExact(ps[i].key, ps[j].key);
    }
  }

  ghost function Grown(h: HStore, e: HEntry, bytes: string): HStore {
    HStore(h.entries + [e.(pos := |h.str|)], h.str + bytes)
  }

  lemma OffsetEnd(es: seq<HEntry>, e: HEntry)
    ensures Offset(es + [e], |es| + 1) == Offset(es, |es|) + Space(e)
  {
    OffsetBefore(es, e, |es|);
  }

  lemma GrownLayout(h: HStore, e: HEntry, bytes: string)
    requires Layout(h) && |bytes| == Space(e)
    ensures Layout(Grown(h, e, bytes))
  {
    hide Offset;
    var e' := e.(pos := |h.str|);
    var es, n := h.entries + [e'], |h.entries|;
    forall i | 0 <= i <= n
      ensures es[i].pos == Offset(es, i)
    {
      OffsetBefore(h.entries, e', i);
    }
    OffsetEnd(h.entries, e');
  }

  lemma GrownPair(h: HStore, e: HEntry, bytes: string, i: nat)
    requires Layout(h) && |bytes| == Space(e) && Layout(Grown(h, e, bytes)) && i <= |h.entries|
    ensures PairAt(Grown(h, e, bytes), i) == if i < |h.entries| then PairAt(h, i) else PairOf(e, bytes)
  {
    hide Offset;
    var h' := Grown(h, e, bytes);
    if i < |h.entries| {
      OffsetGrows(h.entries, i, |h.entries|);
      assert h'.entries[i] == h.entries[i];
      assert BytesAt(h', i) == BytesAt(h, i);
    } else {
      assert BytesAt(h', i) == bytes;
    }
  }

  /** A packed value grows by one entry at its end. */
  lemma Append(h: HStore, e: HEntry, bytes: string)
    requires Layout(h) && |bytes| == Space(e)
    ensures Layout(Grown(h, e, bytes))
    ensures Contents(Grown(h, e, bytes)) == Contents(h) + [PairOf(e, bytes)]
  {
    hide PairAt, PairOf, Layout;
    GrownLayout(h, e, bytes);
    forall i | 0 <= i <= |h.entries|
      ensures Contents(Grown(h, e, bytes))[i] == (Contents(h) + [PairOf(e, bytes)])[i]
    {
      GrownPair(h, e, bytes, i);
    }
  }

  // ---- Reading as a finite map ----

  ghost function ToMap(ps: seq<Pair>): map<string, Option<string>> {
    if |ps| == 0 then map[] else ToMap(ps[..|ps| - 1])[ps[|ps| - 1].key := ps[|ps| - 1].val]
  }

  lemma DistinctKeys(ps: seq<Pair>, i: nat, j: nat)
    requires Ordered(ps) && Clean(ps) && i < j < |ps|
    ensures ps[i].key != ps[j].key
  {
    assert PairNulFree(ps[i]);
    CmpZero(ps[i].key, ps[i].key);
  }

  lemma OrderedPrefix(ps: seq<Pair>, n: nat)
    requires Ordered(ps) && Clean(ps) && n <= |ps|
    ensures Ordered(ps[..n]) && Clean(ps[..n])
  {
  }

  lemma MapStep(ps: seq<Pair>)
    ensures |ps| == 0 ==> ToMap(ps) == map[]
    ensures |ps| > 0 ==> var n := |ps| - 1; ToMap(ps) == ToMap(ps[..n])[ps[n].key := ps[n].val]
  {
  }

  /** In key order, every pair is what the map says of its key, and there are no others. */
  lemma {:induction false} MapOf(ps: seq<Pair>)
    requires Ordered(ps) && Clean(ps)
    ensures forall i :: 0 <= i < |ps| ==> ps[i].key in ToMap(ps) && ToMap(ps)[ps[i].key] == ps[i].val
    ensures forall k :: k in ToMap(ps) ==> exists i :: 0 <= i < |ps| && ps[i].key == k
  {
    hide Ordered, Clean, ToMap;
    MapStep(ps);
    if |ps| > 0 {
      var n := |ps| - 1;
      OrderedPrefix(ps, n);
      MapOf(ps[..n]);
      forall i | 0 <= i < n
        ensures ps[i].key in ToMap(ps) && ToMap(ps)[ps[i].key] == ps[i].val
      {
        assert ps[..n][i] == ps[i];
        DistinctKeys(ps, i, n);
      }
      forall k | k in ToMap(ps)
        ensures exists i :: 0 <= i < |ps| && ps[i].key == k
      {
        if k != ps[n].key {
          var i :| 0 <= i < n && ps[..n][i].key == k;
          assert ps[i].key == k;
        }
      }
    }
  }

  // ---- Lookup ----

  lemma EntryAt(h: HStore, i: nat)
    requires Layout(h) && i < |h.entries|
    ensures h.entries[i].pos + Space(h.entries[i]) <= |h.str|
    ensures PairAt(h, i) == Contents(h)[i]
    ensures Contents(h)[i].key == h.str[h.entries[i].pos..h.entries[i].pos + h.entries[i].keylen]
    ensures var e := h.entries[i];
            Contents(h)[i].val == if e.valisnull then None else Some(h.str[e.pos + e.keylen..e.pos + Space(e)])
  {
    hide Offset, Space;
    OffsetGrows(h.entries, i, |h.entries|);
    var e := h.entries[i];
    SpaceOf(e);
    Slices(h.str, e.pos, Space(e), e.keylen);
  }

  lemma SpaceOf(e: HEntry)
    ensures e.keylen <= Space(e) && (e.valisnull ==> Space(e) == e.keylen)
  {
  }

  lemma Slices(s: string, p: nat, n: nat, k: nat)
    requires p + n <= |s| && k <= n
    ensures s[p..p + n][..k] == s[p..p + k] && s[p..p + n][k..] == s[p + k..p + n]
  {
  }

  /** findkey (hstore_op.c:9-36): a binary search that agrees with the map on every key. */
  method FindKey(hs: HStore, key: string) returns (at: int)
    requires Valid(hs) && NulFree(key)
    ensures -1 <= at < |hs.entries|
    ensures at >= 0 ==> Contents(hs)[at].key == key && key in ToMap(Contents(hs))
                        && ToMap(Contents(hs))[key] == Contents(hs)[at].val
    ensures at == -1 ==> key !in ToMap(Contents(hs))
  {
    hide Layout, Contents, CompareKeys, ToMap, NulFree;
    ghost var ps := Contents(hs);
    MapOf(ps);
    var low, high := 0, |hs.entries|;
    while low < high
      invariant 0 <= low <= high <= |hs.entries|
      invariant forall i :: 0 <= i < low ==> CompareKeys(ps[i].key, key) < 0
      invariant forall i :: high <= i < |ps| ==> CompareKeys(ps[i].key, key) > 0
    {
      var middle := low + (high - low) / 2;
      EntryAt(hs, middle);
      var difference := Difference(hs, middle, key);
      KeyOrder(ps[middle].key, key);
      if difference == 0 {
        return middle;
      } else if difference < 0 {
        BelowMiddle(ps, middle, key);
        low := middle + 1;
      } else {
        AboveMiddle(ps, middle, key);
        high := middle;
      }
    }
    NoneEqual(ps, low, key);
    return -1;
  }

  /** Lines 22-25, which compare lengths before bytes. */
  method Difference(hs: HStore, i: nat, key: string) returns (difference: int)
    requires Layout(hs) && i < |hs.entries|
    ensures difference == CompareKeys(Contents(hs)[i].key, key)
  {
    hide Layout, Contents, StrNCmp;
    EntryAt(hs, i);
    var e := hs.entries[i];
    if e.keylen == |key| {
      difference := StrNCmp(hs.str[e.pos..e.pos + e.keylen], key, e.keylen);
    } else {
      difference := if e.keylen > |key| then 1 else -1;
    }
  }

  lemma BelowMiddle(ps: seq<Pair>, m: nat, key: string)
    requires Ordered(ps) && m < |ps| && CompareKeys(ps[m].key, key) < 0
    ensures forall i :: 0 <= i <= m ==> CompareKeys(ps[i].key, key) < 0
  {
    forall i | 0 <= i < m
      ensures CompareKeys(ps[i].key, key) < 0
    {
      KeyTrans(ps[i].key, ps[m].key, key);
    }
  }

  lemma AboveMiddle(ps: seq<Pair>, m: nat, key: string)
    requires Ordered(ps) && Clean(ps) && NulFree(key) && m < |ps| && CompareKeys(ps[m].key, key) > 0
    ensures forall i :: m <= i < |ps| ==> CompareKeys(ps[i].key, key) > 0
  {
    forall i | m < i < |ps|
      ensures CompareKeys(ps[i].key, key) > 0
    {
      KeyOrder(key, ps[m].key);
      KeyTrans(key, ps[m].key, ps[i].key);
      KeyOrder(key, ps[i].key);
    }
  }

  lemma NoneEqual(ps: seq<Pair>, n: nat, key: string)
    requires NulFree(key) && n <= |ps| && Ordered(ps) && Clean(ps)
    requires forall i :: 0 <= i < n ==> CompareKeys(ps[i].key, key) < 0
    requires forall i :: n <= i < |ps| ==> CompareKeys(ps[i].key, key) > 0
    ensures key !in ToMap(ps)
  {
    MapOf(ps);
    forall i | 0 <= i < |ps|
      ensures ps[i].key != key
    {
      KeyOrder(ps[i].key, key);
    }
  }

  /** fetchval (hstore_op.c:38-62): nothing for a missing key and for a null value. */
  method FetchVal(hs: HStore, key: string) returns (r: Option<string>)
    requires Valid(hs) && NulFree(key)
    ensures r == if key in ToMap(Contents(hs)) then ToMap(Contents(hs))[key] else None
  {
    hide Layout, Contents, Ordered, Clean, ToMap, NulFree;
    var at := FindKey(hs, key);
    if at == -1 {
      return None;
    }
    EntryAt(hs, at);
    var e := hs.entries[at];
    if e.valisnull {
      return None;
    }
    return Some(hs.str[e.pos + e.keylen..e.pos + e.keylen + e.vallen]);
  }

  // ---- Inclusion ----

  ghost predicate Includes(m: map<string, Option<string>>, t: map<string, Option<string>>) {
    forall k :: k in t ==> k in m && m[k] == t[k]
  }

  /** hs_contains (hstore_op.c:522-562): inclusion of maps, null being equal only to null. */
  method HsContains(val: HStore, tmpl: HStore) returns (res: bool)
    requires Valid(val) && Valid(tmpl)
    ensures res <==> Includes(ToMap(Contents(val)), ToMap(Contents(tmpl)))
  {
    hide Layout, Contents, Ordered, ToMap, NulFree;
    ghost var ps, m := Contents(tmpl), ToMap(Contents(val));
    MapOf(ps);
    res := true;
    var te := 0;
    while res && te < |tmpl.entries|
      invariant 0 <= te <= |tmpl.entries|
      invariant res ==> forall i :: 0 <= i < te ==> ps[i].key in m && m[ps[i].key] == ps[i].val
      invariant !res ==> exists i :: 0 <= i < te && !(ps[i].key in m && m[ps[i].key] == ps[i].val)
    {
      res := EntryIncluded(val, tmpl, te);
      te := te + 1;
    }
  }

  /** Lines 536-554. */
  method EntryIncluded(val: HStore, tmpl: HStore, te: nat) returns (res: bool)
    requires Valid(val) && Valid(tmpl) && te < |tmpl.entries|
    ensures var p, m := Contents(tmpl)[te], ToMap(Contents(val));
            res <==> p.key in m && m[p.key] == p.val
  {
    hide Layout, Contents, Ordered, ToMap, NulFree;
    EntryAt(tmpl, te);
    var t := tmpl.entries[te];
    assert PairNulFree(Contents(tmpl)[te]);
    var at := FindKey(val, tmpl.str[t.pos..t.pos + t.keylen]);
    if at == -1 {
      return false;
    }
    EntryAt(val, at);
    var entry := val.entries[at];
    if t.valisnull || entry.valisnull {
      res := t.valisnull && entry.valisnull;
    } else if t.vallen != entry.vallen {
      res := false;
    } else {
      var a := val.str[entry.pos + entry.keylen..entry.pos + entry.keylen + entry.vallen];
      var b := tmpl.str[t.pos + t.keylen..t.pos + t.keylen + t.vallen];
      assert PairNulFree(Contents(val)[at]);
      CmpZero(a, b);
      res := StrNCmp(a, b, t.vallen) == 0;
    }
  }
}
