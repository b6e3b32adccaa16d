/** hstore_in (contrib/hstore/hstore_io.c:346-401): from text to the packed form, and the round
    trip of a packed value through its text.
 */
module HstorePacking {
  import opened Hstores
  import opened HstoreOps
  import opened HstoreText
  import opened HstorePrint
  import opened HstoreInput

  // ---- hstore_in ----

  /** What a raw pair binds: a null value whatever its word, otherwise as much of the words as
      the lengths say. */
  ghost function Bound(r: RawPair): Pair {
    Pair(RawKey(r), if r.isnull then None else Some(r.val[..r.vallen]))
  }

  ghost function Bounds(rs: seq<RawPair>): (ps: seq<Pair>)
    ensures |ps| == |rs|
  {
    seq(|rs|, i requires 0 <= i < |rs| => Bound(rs[i]))
  }

  /** hstore_in gives every null value the length 4. */
  ghost predicate NullLens(h: HStore) {
    forall i :: 0 <= i < |h.entries| && h.entries[i].valisnull ==> h.entries[i].vallen == 4
  }

  /** Lines 383-396: one pair behind what has been written. */
  method PackOne(entries: array<HEntry>, i: nat, str: array<char>, ptr: nat, r: RawPair) returns (ptr': nat)
    requires i < entries.Length && StrPtr(entries.Length) + ptr + RawSpace(r) <= str.Length
    requires Layout(Built(entries, i, str, ptr))
    modifies entries, str
    ensures ptr' == ptr + RawSpace(r)
    ensures Layout(Built(entries, i + 1, str, ptr'))
    ensures Contents(Built(entries, i + 1, str, ptr')) == old(Contents(Built(entries, i, str, ptr))) + [Bound(r)]
    ensures entries[..i] == old(entries[..i]) && (r.isnull ==> entries[i].vallen == 4)
    ensures entries[i].valisnull == r.isnull
  {
    hide Layout, Contents, RawKey, StrPtr, Bound;
    ghost var h := Built(entries, i, str, ptr);
    ghost var es := entries[..i];
    ghost var e := HEntry(r.keylen, if r.isnull then 4 else r.vallen, r.isnull, ptr);
    ghost var bytes := r.key[..r.keylen] + if r.isnull then "" else r.val[..r.vallen];
    ptr' := ptr;
    CopyBytes(str, StrPtr(entries.Length), ptr', r.key, 0, r.keylen);
    ptr' := ptr' + r.keylen;
    if r.isnull {
      entries[i] := HEntry(r.keylen, 4, true, ptr);
      assert bytes == r.key[0..r.keylen];
    } else {
      entries[i] := HEntry(r.keylen, r.vallen, false, ptr);
      CopyBytes(str, StrPtr(entries.Length), ptr', r.val, 0, r.vallen);
      ptr' := ptr' + r.vallen;
      assert bytes == r.key[0..r.keylen] + r.val[0..r.vallen];
    }
    assert Built(entries, i + 1, str, ptr') == HStore(h.entries + [e], h.str + bytes) by {
      assert entries[..i + 1] == es + [e];
    }
    PackedPair(e, bytes, r);
    Append(h, e, bytes);
  }

  lemma PackedPair(e: HEntry, bytes: string, r: RawPair)
    requires e.keylen == r.keylen && e.valisnull == r.isnull && (!r.isnull ==> e.vallen == r.vallen)
    requires bytes == r.key[..r.keylen] + if r.isnull then "" else r.val[..r.vallen]
    ensures |bytes| == Space(e) && PairOf(e, bytes) == Bound(r)
  {
    assert bytes[..e.keylen] == r.key[..r.keylen];
    assert !r.isnull ==> bytes[e.keylen..] == r.val[..r.vallen];
  }

  /** Lines 373-397. */
  method Pack(pairs: array<RawPair>, size: nat, buflen: nat) returns (out: HStore)
    requires size <= pairs.Length && buflen == RawSum(pairs[..size])
    ensures Layout(out) && Contents(out) == Bounds(pairs[..size]) && NullLens(out)
  {
    hide Layout, Contents, RawSum, Bound, RawSpace;
    ghost var rs := pairs[..size];
    var entries := new HEntry[size](_ => HEntry(0, 0, true, 0));
    var str := new char[StrPtr(size) + buflen];
    var ptr: nat := 0;
    EmptyBuilt();
    RawSumNone();
    assert Built(entries, 0, str, 0) == HStore([], []);
    assert rs[..0] == [];
    for i := 0 to size
      invariant ptr == RawSum(rs[..i]) <= buflen && rs == pairs[..size]
      invariant Layout(Built(entries, i, str, ptr)) && Contents(Built(entries, i, str, ptr)) == Bounds(rs[..i])
      invariant forall k :: 0 <= k < i && entries[k].valisnull ==> entries[k].vallen == 4
    {
      SumFits(rs, i);
      ghost var es := entries[..i];
      ptr := PackOne(entries, i, str, ptr, pairs[i]);
      assert forall k :: 0 <= k < i ==> entries[k] == entries[..i][k] == es[k];
      assert Bounds(rs[..i + 1]) == Bounds(rs[..i]) + [Bound(rs[i])];
    }
    assert rs[..size] == rs;
    out := HStore(entries[..size], str[StrPtr(size)..StrPtr(size) + ptr]);
  }

  lemma {:induction false} SumFits(rs: seq<RawPair>, i: nat)
    requires i < |rs|
    ensures RawSum(rs[..i + 1]) == RawSum(rs[..i]) + RawSpace(rs[i]) <= RawSum(rs)
    decreases |rs|
  {
    var n := |rs| - 1;
    assert rs[..i + 1][..i] == rs[..i];
    if i < n {
      SumFits(rs[..n], i);
      assert rs[..n][..i + 1] == rs[..i + 1] && rs[..n][..i] == rs[..i];
    } else {
      assert rs[..i + 1] == rs;
    }
  }

  /** A kept list in order packs to a valid value. */
  lemma BoundsValid(u: seq<RawPair>)
    requires AllOk(u) && StrictRaw(u)
    ensures Ordered(Bounds(u)) && Clean(Bounds(u))
  {
    hide CompareKeys, RawKey;
    forall i | 0 <= i < |u|
      ensures PairNulFree(Bounds(u)[i])
    {
      OkAt(u, i);
      SliceNulFree(u[i]);
    }
  }

  /** h holds what the collected pairs say: each of their keys, bound by one of its pairs. */
  ghost predicate Holds(h: HStore, raw: seq<RawPair>)
    requires Layout(h)
  {
    exists u :: IsUnique(u, raw) && Contents(h) == Bounds(u)
  }

  /** hstore_in: the error of the parser, or a valid packed value of what it has collected. */
  method HstoreIn(text: string) returns (r: Result<HStore>)
    ensures Parse(text).Err? ==> r == Err(Parse(text).error)
    ensures Parse(text).Ok? ==>
              && r.Ok? && Valid(r.value) && NullLens(r.value) && Holds(r.value, Parse(text).value)
              && InKeyOrder(Contents(r.value))
  {
    hide Parse, Layout, Contents, IsUnique, Ordered, Clean, AllOk, NullLens;
    var state := new HSParser(text);
    var error := state.ParseHstore();
    if error != None {
      return Err(error.value);
    }
    ghost var raw := state.pairs;
    assert Parse(text) == Ok(raw);
    ParsedOk(text);
    if |state.pairs| == 0 {
      EmptyHolds(raw);
      return Ok(HStore([], []));
    }
    var pairs := new RawPair[|state.pairs|](i requires 0 <= i < |state.pairs| reads state => state.pairs[i]);
    assert pairs[..] == raw;
    var size, buflen := UniquePairs(pairs);
    ghost var u := pairs[..size];
    var out := Pack(pairs, size, buflen);
    UniqueStrict(u, raw);
    BoundsValid(u);
    OrderedExact(Contents(out));
    return Ok(out);
  }

  lemma UniqueStrict(u: seq<RawPair>, raw: seq<RawPair>)
    requires IsUnique(u, raw)
    ensures StrictRaw(u)
  {
  }

  lemma ParsedOk(text: string)
    ensures Parse(text).Ok? ==> AllOk(Parse(text).value)
  {
    ParseOk(text, 0, WKey, "", []);
  }

  lemma EmptyHolds(raw: seq<RawPair>)
    requires |raw| == 0
    ensures var h := HStore([], []); Valid(h) && NullLens(h) && Holds(h, raw) && InKeyOrder(Contents(h))
  {
    EmptyBuilt();
    assert Bounds([]) == [];
    assert IsUnique([], raw);
  }

  /** As a map: every parsed key is in it, and every binding was parsed. */
  lemma ParsedMap(h: HStore, raw: seq<RawPair>)
    requires Valid(h) && Holds(h, raw) && AllOk(raw)
    ensures forall i :: 0 <= i < |raw| ==> RawKey(raw[i]) in ToMap(Contents(h))
    ensures forall k :: k in ToMap(Contents(h)) ==>
              exists i :: 0 <= i < |raw| && Bound(raw[i]) == Pair(k, ToMap(Contents(h))[k])
  {
    hide Layout, Contents, Ordered, Clean, ToMap, ComparePairs, RawKey, AllOk, StrictRaw;
    var u :| IsUnique(u, raw) && Contents(h) == Bounds(u);
    var ps := Contents(h);
    MapOf(ps);
    forall i | 0 <= i < |raw|
      ensures RawKey(raw[i]) in ToMap(ps)
    {
      assert Stands(u, raw[i]);
      var k :| 0 <= k < |u| && RawKey(u[k]) == RawKey(raw[i]);
      assert ps[k] == Bound(u[k]);
    }
    forall k | k in ToMap(ps)
      ensures exists i :: 0 <= i < |raw| && Bound(raw[i]) == Pair(k, ToMap(ps)[k])
    {
      var j :| 0 <= j < |ps| && ps[j].key == k;
      assert u[j] in u && u[j] in raw;
      var i :| 0 <= i < |raw| && raw[i] == u[j];
      assert Bound(raw[i]) == ps[j];
    }
  }

  // ---- The round trip ----

  /** The same value with the length of every null as hstore_in writes it. */
  ghost function Normal(h: HStore): HStore {
    HStore(seq(|h.entries|, i requires 0 <= i < |h.entries| =>
                 if h.entries[i].valisnull then h.entries[i].(vallen := 4) else h.entries[i]), h.str)
  }

  lemma NormalSame(h: HStore)
    ensures Normal(h) == h <==> NullLens(h)
  {
    var n := Normal(h);
    if NullLens(h) {
      assert n.entries == h.entries;
    } else {
      var i :| 0 <= i < |h.entries| && h.entries[i].valisnull && h.entries[i].vallen != 4;
      assert n.entries[i] != h.entries[i];
    }
  }

  /** Entries that make the same pairs differ at most in the length of nulls. */
  lemma SameEntry(h: HStore, g: HStore, i: nat)
    requires Layout(h) && Layout(g) && Contents(h) == Contents(g) && i < |h.entries|
    ensures |g.entries| == |h.entries|
    ensures Space(g.entries[i]) == Space(h.entries[i]) && BytesAt(g, i) == BytesAt(h, i)
    ensures g.entries[i].valisnull == h.entries[i].valisnull && g.entries[i].keylen == h.entries[i].keylen
    ensures !h.entries[i].valisnull ==> g.entries[i].vallen == h.entries[i].vallen
  {
    hide Layout;
    assert |Contents(g)| == |Contents(h)|;
    var x := Contents(h)[i];
    assert x == Contents(g)[i];
    EntryBytes(h, i);
    EntryBytes(g, i);
  }

  lemma EntryBytes(h: HStore, i: nat)
    requires Layout(h) && i < |h.entries|
    ensures var (x, e) := (Contents(h)[i], h.entries[i]);
            && |x.key| == e.keylen && x.val.None? == e.valisnull
            && (x.val.Some? ==> |x.val.value| == e.vallen && BytesAt(h, i) == x.key + x.val.value)
            && (x.val.None? ==> BytesAt(h, i) == x.key)
  {
    hide Layout, BytesAt;
    var e, b := h.entries[i], BytesAt(h, i);
    assert PairAt(h, i) == PairOf(e, b);
    assert b == b[..e.keylen] + b[e.keylen..];
  }

  lemma {:induction false} SameStr(h: HStore, g: HStore, n: nat)
    requires Layout(h) && Layout(g) && Contents(h) == Contents(g) && n <= |h.entries| == |g.entries|
    ensures Offset(h.entries, n) == Offset(g.entries, n) <= |h.str| && Offset(g.entries, n) <= |g.str|
    ensures h.str[..Offset(h.entries, n)] == g.str[..Offset(g.entries, n)]
  {
    hide Contents, Space, BytesAt, Layout;
    if n > 0 {
      SameStr(h, g, n - 1);
      SameEntry(h, g, n - 1);
      StrNext(h, n - 1);
      StrNext(g, n - 1);
    }
  }

  lemma StrNext(h: HStore, i: nat)
    requires Layout(h) && i < |h.entries|
    ensures Offset(h.entries, i + 1) == Offset(h.entries, i) + Space(h.entries[i]) <= |h.str|
    ensures h.str[..Offset(h.entries, i + 1)] == h.str[..Offset(h.entries, i)] + BytesAt(h, i)
  {
    hide Layout, Space, Offset;
    Advance(h, i);
    var p := Offset(h.entries, i);
    assert h.str[..p + Space(h.entries[i])] == h.str[..p] + h.str[p..p + Space(h.entries[i])];
  }

  /** A packed value is determined by its contents, but for the length of nulls. */
  lemma LayoutUnique(h: HStore, g: HStore)
    requires Layout(h) && Layout(g) && Contents(h) == Contents(g) && NullLens(g)
    ensures g == Normal(h)
  {
    hide Contents, Space, BytesAt, Offset;
    LengthOf(h);
    LengthOf(g);
    var n := |h.entries|;
    SameStr(h, g, n);
    forall i | 0 <= i < n
      ensures g.entries[i] == Normal(h).entries[i]
    {
      SameEntry(h, g, i);
      SameStr(h, g, i);
    }
    assert h.str[..|h.str|] == h.str && g.str[..|g.str|] == g.str;
  }

  lemma LengthOf(h: HStore)
    requires Layout(h)
    ensures |Contents(h)| == |h.entries|
  {
  }

  /** What is printed of a packed value is collected in the same order, every word whole. */
  lemma RawAllStrict(h: HStore)
    requires Valid(h)
    ensures Bounds(RawAll(Contents(h))) == Contents(h)
    ensures AllOk(RawAll(Contents(h))) && StrictRaw(RawAll(Contents(h)))
  {
    hide Layout, CompareKeys, NulFree, Contents;
    var ps := Contents(h);
    var raw := RawAll(ps);
    forall i | 0 <= i < |ps|
      ensures RawOk(raw[i]) && RawKey(raw[i]) == ps[i].key && Bound(raw[i]) == ps[i]
    {
      EntryBytes(h, i);
      assert PairNulFree(ps[i]);
      RawOfPair(ps[i]);
    }
  }

  lemma RawOfPair(p: Pair)
    requires PairNulFree(p) && |p.key| < 0x1_0000 && (p.val.Some? ==> |p.val.value| < 0x1_0000)
    ensures RawOk(RawOf(p)) && RawKey(RawOf(p)) == p.key && Bound(RawOf(p)) == p
  {
    ModLess(|p.key|);
    assert p.key[..|p.key|] == p.key;
    if p.val.Some? {
      ModLess(|p.val.value|);
      assert p.val.value[..|p.val.value|] == p.val.value;
    } else {
      assert "nN"[1] == 'N' && "uU"[1] == 'U' && "lL"[1] == 'L';
      assert IsNullWord("NULL");
    }
  }

  /** hstore_in of hstore_out gives back every valid value, entry for entry and byte for byte;
      only the length field of a null value becomes 4. */
  method RoundTrip(h: HStore) returns (r: Result<HStore>)
    requires Valid(h)
    ensures r == Ok(Normal(h))
  {
    hide Layout, Contents, Ordered, Clean, IsUnique, AllOk, NullLens, Parse, Normal;
    var text := HstoreOut(h);
    r := HstoreIn(text);
    ghost var raw := RawAll(Contents(h));
    ParsePrint(Contents(h));
    RawAllStrict(h);
    ghost var u :| IsUnique(u, raw) && Contents(r.value) == Bounds(u);
    MembersOk(u, raw);
    UniqueSame(u, raw);
    LayoutUnique(h, r.value);
  }

  lemma MembersOk(u: seq<RawPair>, raw: seq<RawPair>)
    requires IsUnique(u, raw) && AllOk(raw)
    ensures AllOk(u)
  {
    hide StrictRaw, Stands;
    forall i | 0 <= i < |u|
      ensures RawOk(u[i])
    {
      assert u[i] in u && u[i] in raw;
      var k :| 0 <= k < |raw| && raw[k] == u[i];
    }
  }
}
