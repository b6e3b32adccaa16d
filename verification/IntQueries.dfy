/** Boolean queries over integer sets (contrib/intarray/_int_bool.c). */
module IntQueries {
  import opened IntArrays

  const VAL: int := 2
  const OPR: int := 3

  // The operators are the character codes of !, & and |.
  const NOT: int := 33
  const AND: int := 38
  const OR: int := 124

  /** One item of a query in polish notation, with the offset of its left operand. */
  datatype Item = Item(kind: int, left: int, val: int)

  datatype Query = Value(v: int32) | Not(q: Query) | Join(all: bool, l: Query, r: Query)

  ghost function Size(q: Query): nat {
    match q
    case Value(_) => 1
    case Not(p) => Size(p) + 1
    case Join(_, l, r) => Size(l) + Size(r) + 1
  }

  /** What a 16-bit field holds of x. */
  function Wrap16(x: int): int {
    (x + 0x8000) % 0x1_0000 - 0x8000
  }

  function JoinItem(all: bool, size: nat): Item {
    Item(OPR, Wrap16(-(size + 1)), if all then AND else OR)
  }

  /** The query as the parser leaves it: operands before their operator.  The offsets are those
      findoprnd writes. */
  ghost function Postfix(q: Query): (s: seq<Item>)
    ensures |s| == Size(q)
  {
    match q
    case Value(v) => [Item(VAL, 0, v)]
    case Not(p) => Postfix(p) + [Item(OPR, -1, NOT)]
    case Join(all, l, r) => Postfix(l) + Postfix(r) + [JoinItem(all, Size(r))]
  }

  /** Equal but for the offsets. */
  ghost predicate SameItems(s: seq<Item>, t: seq<Item>) {
    |s| == |t| && forall i :: 0 <= i < |s| ==> s[i].kind == t[i].kind && s[i].val == t[i].val
  }

  lemma PostfixSplit(q: Query)
    ensures var (s, n) := (Postfix(q), Size(q) - 1);
            match q
            case Value(v) => n == 0 && s[n] == Item(VAL, 0, v)
            case Not(p) => s[n] == Item(OPR, -1, NOT) && s[..n] == Postfix(p)
            case Join(all, l, r) => s[n] == JoinItem(all, Size(r))
                                    && s[Size(l)..n] == Postfix(r) && s[..Size(l)] == Postfix(l)
  {
    hide Wrap16;
  }

  /** The last item of a query, and where its operands are. */
  lemma PostfixParts(q: Query, s: seq<Item>)
    requires SameItems(s, Postfix(q))
    ensures var n := |s| - 1;
            match q
            case Value(v) => s[n].kind == VAL && s[n].val == v && n == 0
            case Not(p) => s[n].kind == OPR && s[n].val == NOT && SameItems(s[..n], Postfix(p))
            case Join(all, l, r) => s[n].kind == OPR && s[n].val == (if all then AND else OR)
                                    && SameItems(s[Size(l)..n], Postfix(r)) && SameItems(s[..Size(l)], Postfix(l))
  {
    hide Postfix;
    PostfixSplit(q);
  }

  /** t is s with the part from lo to hi replaced by part. */
  ghost predicate Replaced(s: seq<Item>, t: seq<Item>, lo: nat, hi: nat, part: seq<Item>) {
    && lo <= hi <= |s| == |t|
    && t[lo..hi] == part && t[..lo] == s[..lo] && t[hi..] == s[hi..]
  }

  /** The items of q end before position hi. */
  ghost predicate Spells(s: seq<Item>, hi: int, q: Query) {
    Size(q) <= hi <= |s| && SameItems(s[hi - Size(q)..hi], Postfix(q))
  }

  /** The last item of q at pos, and its operands before it. */
  lemma SpelledParts(s: seq<Item>, pos: nat, q: Query)
    requires Spells(s, pos + 1, q)
    ensures Size(q) <= pos + 1 <= |s|
    ensures match q
            case Value(v) => s[pos].kind == VAL && s[pos].val == v
            case Not(p) => s[pos].kind == OPR && s[pos].val == NOT && Spells(s, pos, p)
            case Join(all, l, r) => s[pos].kind == OPR && s[pos].val == (if all then AND else OR)
                                    && Spells(s, pos, r) && Spells(s, pos - Size(r), l)
  {
    hide SameItems, Postfix;
    var lo := pos + 1 - Size(q);
    SizePositive(q);
    PostfixParts(q, s[lo..pos + 1]);
    assert s[pos] == s[lo..pos + 1][pos - lo];
    hide Spells;
    match q {
      case Value(_) =>
      case Not(p) =>
        assert Size(q) == Size(p) + 1;
        Slice(s, lo, pos + 1, 0, pos - lo);
        SpellsAt(s, pos, p);
      case Join(_, l, r) =>
        JoinSize(q);
        BothBefore(s, lo, lo + Size(l), pos);
        SpellsAt(s, pos, r);
        SpellsAt(s, lo + Size(l), l);
    }
  }

  lemma SpellsAt(s: seq<Item>, hi: nat, q: Query)
    requires Size(q) <= hi <= |s| && SameItems(s[hi - Size(q)..hi], Postfix(q))
    ensures Spells(s, hi, q)
  {
  }

  lemma Slice(s: seq<Item>, lo: nat, hi: nat, i: nat, j: nat)
    requires lo <= hi <= |s| && i <= j <= hi - lo
    ensures s[lo..hi][i..j] == s[lo + i..lo + j]
  {
    var t := s[lo..hi];
    assert forall k :: i <= k < j ==> t[k] == s[lo + k];
  }

  lemma BothBefore(s: seq<Item>, lo: nat, mid: nat, pos: nat)
    requires lo <= mid <= pos < |s|
    ensures s[lo..pos + 1][mid - lo..pos - lo] == s[mid..pos]
    ensures s[lo..pos + 1][..mid - lo] == s[lo..mid]
  {
    Slice(s, lo, pos + 1, mid - lo, pos - lo);
    Slice(s, lo, pos + 1, 0, mid - lo);
  }

  /** findoprnd (lines 403-431): the offsets of one operand, from its operator down.  It leaves
      pos just before the operand and touches nothing outside. */
  method FindOprnd(ptr: array<Item>, pos: nat, ghost q: Query) returns (before: int)
    requires Spells(ptr[..], pos + 1, q)
    modifies ptr
    ensures before == pos - Size(q)
    ensures Replaced(old(ptr[..]), ptr[..], before + 1, pos + 1, Postfix(q))
    decreases Size(q), 1
  {
    hide Wrap16, Postfix, Replaced, Spells;
    SpelledParts(ptr[..], pos, q);
    if ptr[pos].kind == VAL {
      ghost var s := ptr[..];
      ptr[pos] := ptr[pos].(left := 0);
      before := pos - 1;
      ValueItem(q, ptr[pos], s, pos);
      assert ptr[..] == s[pos := ptr[pos]];
    } else if ptr[pos].val == NOT {
      before := NotOprnd(ptr, pos, q);
    } else {
      before := BothOprnds(ptr, pos, q);
    }
  }

  /** The store of an offset. */
  method SetLeft(ptr: array<Item>, pos: nat, left: int)
    requires pos < ptr.Length
    modifies ptr
    ensures ptr[..] == old(ptr[..])[pos := old(ptr[pos]).(left := left)]
  {
    ptr[pos] := ptr[pos].(left := left);
  }

  /** Lines 417-419. */
  method NotOprnd(ptr: array<Item>, pos: nat, ghost q: Query) returns (before: int)
    requires q.Not? && Size(q) <= pos + 1 <= ptr.Length
    requires ptr[pos].kind == OPR && ptr[pos].val == NOT && Spells(ptr[..], pos, q.q)
    modifies ptr
    ensures before == pos - Size(q)
    ensures Replaced(old(ptr[..]), ptr[..], before + 1, pos + 1, Postfix(q))
    decreases Size(q), 0
  {
    hide Postfix, Replaced, Spells;
    ghost var s, item := ptr[..], ptr[pos].(left := -1);
    SetLeft(ptr, pos, -1);
    SpellsUpdate(s, pos, item, pos, q.q);
    before := FindOprnd(ptr, pos - 1, q.q);
    NotAfter(s, ptr[..], q, pos, item);
  }

  /** Items before position hi are not changed by a store at hi or behind it. */
  lemma SpellsUpdate(s: seq<Item>, pos: nat, item: Item, hi: nat, q: Query)
    requires hi <= pos < |s| && Spells(s, hi, q)
    ensures Spells(s[pos := item], hi, q)
  {
    hide SameItems, Postfix;
    assert s[pos := item][hi - Size(q)..hi] == s[hi - Size(q)..hi];
  }

  lemma NotAfter(s: seq<Item>, t: seq<Item>, q: Query, pos: nat, item: Item)
    requires q.Not? && Size(q) <= pos + 1 <= |s|
    requires item.kind == OPR && item.left == -1 && item.val == NOT
    requires Replaced(s[pos := item], t, pos - Size(q.q), pos, Postfix(q.q))
    ensures Replaced(s, t, pos - Size(q.q), pos + 1, Postfix(q))
  {
    assert t[pos] == t[pos..][0] == s[pos := item][pos..][0];
    assert t[pos + 1..] == t[pos..][1..] == s[pos := item][pos..][1..] == s[pos + 1..];
  }

  /** Lines 423-429. */
  method BothOprnds(ptr: array<Item>, pos: nat, ghost q: Query) returns (before: int)
    requires q.Join? && Size(q) <= pos + 1 <= ptr.Length
    requires ptr[pos].kind == OPR && ptr[pos].val == if q.all then AND else OR
    requires Spells(ptr[..], pos, q.r) && Spells(ptr[..], pos - Size(q.r), q.l)
    modifies ptr
    ensures before == pos - Size(q)
    ensures Replaced(old(ptr[..]), ptr[..], before + 1, pos + 1, Postfix(q))
    decreases Size(q), 0
  {
    hide Wrap16, Postfix, Replaced, Size, Spells;
    JoinSize(q);
    ghost var mid, lo := pos - Size(q.r), pos - Size(q.r) - Size(q.l);
    ghost var s := ptr[..];
    var middle := FindOprnd(ptr, pos - 1, q.r);
    ghost var s1, item := ptr[..], ptr[pos].(left := Wrap16(middle - pos));
    BothMiddle(s, s1, mid, pos, Postfix(q.r), q.l);
    SetLeft(ptr, pos, Wrap16(middle - pos));
    SpellsUpdate(s1, pos, item, mid, q.l);
    before := FindOprnd(ptr, middle, q.l);
    JoinedItem(q, item);
    BothAfter(s, s1, ptr[..], lo, mid, pos, Postfix(q.l), Postfix(q.r), item);
  }

  lemma JoinSize(q: Query)
    requires q.Join?
    ensures Size(q) == Size(q.l) + Size(q.r) + 1
    ensures Size(q.l) > 0 && Size(q.r) > 0
  {
    SizePositive(q.l);
    SizePositive(q.r);
  }

  /** Linking the right operand leaves the operator and the left operand as they are. */
  lemma BothMiddle(s: seq<Item>, s1: seq<Item>, mid: nat, pos: nat, r: seq<Item>, l: Query)
    requires mid <= pos < |s| && Replaced(s, s1, mid, pos, r) && Spells(s, mid, l)
    ensures Spells(s1, mid, l) && s1[pos] == s[pos]
  {
    hide SameItems, Postfix;
    assert s1[mid - Size(l)..mid] == s1[..mid][mid - Size(l)..] == s[..mid][mid - Size(l)..] == s[mid - Size(l)..mid];
    assert s1[pos] == s1[pos..][0] == s[pos..][0] == s[pos];
  }

  /** Both operands have been linked and the operator written between the two calls. */
  lemma BothAfter(s: seq<Item>, s1: seq<Item>, s2: seq<Item>, lo: nat, mid: nat, pos: nat,
                  l: seq<Item>, r: seq<Item>, item: Item)
    requires lo <= mid <= pos < |s| && Replaced(s, s1, mid, pos, r)
    requires Replaced(s1[pos := item], s2, lo, mid, l)
    ensures Replaced(s, s2, lo, pos + 1, l + r + [item])
  {
    var sB := s1[pos := item];
    assert sB[mid..pos + 1] == s1[mid..pos] + [item];
    assert s2[mid..pos + 1] == s2[mid..][..pos + 1 - mid] == sB[mid..][..pos + 1 - mid] == sB[mid..pos + 1];
    assert s2[lo..pos + 1] == s2[lo..mid] + s2[mid..pos + 1];
    assert s2[..lo] == s1[..lo] == s1[..mid][..lo] == s[..lo];
    assert s2[pos + 1..] == s2[mid..][pos + 1 - mid..] == sB[mid..][pos + 1 - mid..] == sB[pos + 1..];
    assert sB[pos + 1..] == s1[pos + 1..] == s1[pos..][1..] == s[pos + 1..];
  }

  lemma ValueItem(q: Query, item: Item, s: seq<Item>, pos: nat)
    requires q.Value? && item == Item(VAL, 0, q.v) && pos < |s|
    ensures Replaced(s, s[pos := item], pos, pos + 1, Postfix(q)) && Size(q) == 1
  {
  }

  lemma JoinedItem(q: Query, item: Item)
    requires q.Join? && item == JoinItem(q.all, Size(q.r))
    ensures Postfix(q) == Postfix(q.l) + Postfix(q.r) + [item]
  {
  }

  /** The end of bqarr_in (lines 481-482): all offsets of a query. */
  method LinkQuery(ptr: array<Item>, ghost q: Query)
    requires SameItems(ptr[..], Postfix(q))
    modifies ptr
    ensures ptr[..] == Postfix(q)
  {
    hide SameItems, Postfix, Wrap16;
    SizePositive(q);
    ghost var s := ptr[..];
    SameLength(s, q);
    assert s[0..|s|] == s;
    var before := FindOprnd(ptr, ptr.Length - 1, q);
    assert ptr[..] == ptr[..][0..|s|];
  }

  lemma SizePositive(q: Query)
    ensures Size(q) > 0
  {
  }

  lemma SameLength(s: seq<Item>, q: Query)
    requires SameItems(s, Postfix(q))
    ensures |s| == Size(q)
  {
  }

  // ---- Evaluation ----

  /** The meaning of a query over the members of an array.  Without calcnot every negation
      counts as true. */
  ghost predicate Eval(q: Query, members: seq<int32>, calcnot: bool) {
    match q
    case Value(v) => v in members
    case Not(p) => calcnot ==> !Eval(p, members, calcnot)
    case Join(all, l, r) =>
      if all then Eval(l, members, calcnot) && Eval(r, members, calcnot)
      else Eval(l, members, calcnot) || Eval(r, members, calcnot)
  }

  /** What holds of some members, negations and all, holds of more without the negations: an
      inner key never hides a row. */
  lemma {:induction false} EvalWidens(q: Query, few: seq<int32>, many: seq<int32>)
    requires Subset(few, many) && Eval(q, few, true)
    ensures Eval(q, many, false)
  {
    match q
    case Value(v) =>
    case Not(p) =>
    case Join(all, l, r) =>
      if Eval(l, few, true) {
        EvalWidens(l, few, many);
      }
      if Eval(r, few, true) {
        EvalWidens(r, few, many);
      }
  }

  lemma {:induction false} EvalSame(q: Query, s: seq<int32>, t: seq<int32>, calcnot: bool)
    requires SameMembers(s, t)
    ensures Eval(q, s, calcnot) == Eval(q, t, calcnot)
  {
    match q
    case Value(v) =>
    case Not(p) =>
      EvalSame(p, s, t, calcnot);
    case Join(all, l, r) =>
      EvalSame(l, s, t, calcnot);
      EvalSame(r, s, t, calcnot);
  }

  ghost predicate NotFree(q: Query) {
    match q
    case Value(_) => true
    case Not(_) => false
    case Join(_, l, r) => NotFree(l) && NotFree(r)
  }

  /** Only negation is weakened: for every other query an inner key is tested exactly. */
  lemma {:induction false} NotFreeExact(q: Query, members: seq<int32>)
    requires NotFree(q)
    ensures Eval(q, members, false) == Eval(q, members, true)
  {
    match q
    case Value(v) =>
    case Join(all, l, r) =>
      NotFreeExact(l, members);
      NotFreeExact(r, members);
  }

  /** Every right operand is short enough for its length to fit the 16-bit offset. */
  ghost predicate OffsetsFit(q: Query) {
    match q
    case Value(_) => true
    case Not(p) => OffsetsFit(p)
    case Join(_, l, r) => OffsetsFit(l) && OffsetsFit(r) && Size(r) < 0x8000
  }

  /** The stored offset leads to the left operand exactly up to that length. */
  lemma OffsetExact(n: nat)
    ensures Wrap16(-(n + 1)) == -(n + 1) <==> n < 0x8000
  {
  }

  /** checkcondition_arr (lines 234-254): binary search. */
  method CheckConditionArr(arr: array<int32>, n: nat, val: int32) returns (found: bool)
    requires n <= arr.Length && Sorted(arr[..n])
    ensures found <==> val in arr[..n]
  {
    var low, high := 0, n;
    while low < high
      invariant 0 <= low <= high <= n
      invariant forall k :: 0 <= k < low ==> arr[k] < val
      invariant forall k :: high <= k < n ==> val < arr[k]
    {
      var middle := low + (high - low) / 2;
      if arr[middle] == val {
        assert arr[..n][middle] == val;
        return true;
      } else if arr[middle] < val {
        assert forall k :: 0 <= k < middle ==> arr[..n][k] <= arr[..n][middle];
        low := middle + 1;
      } else {
        assert forall k :: middle < k < n ==> arr[..n][middle] <= arr[..n][k];
        high := middle;
      }
    }
    return false;
  }

  /** The linked operand q ends at cur. */
  ghost predicate EndsAt(q: Query, s: seq<Item>, cur: int) {
    Size(q) <= cur + 1 <= |s| && s[cur + 1 - Size(q)..cur + 1] == Postfix(q)
  }

  lemma ValueAt(q: Query, s: seq<Item>, cur: int)
    requires EndsAt(q, s, cur)
    ensures q.Value? ==> s[cur] == Item(VAL, 0, q.v)
    ensures q.Not? ==> s[cur] == Item(OPR, -1, NOT)
    ensures q.Join? ==> s[cur] == JoinItem(q.all, Size(q.r))
  {
    hide Postfix, Wrap16;
    PostfixSplit(q);
    assert s[cur + 1 - Size(q)..cur + 1][Size(q) - 1] == s[cur];
  }

  lemma NotAt(q: Query, s: seq<Item>, cur: int)
    requires EndsAt(q, s, cur) && q.Not?
    ensures EndsAt(q.q, s, cur - 1)
  {
    hide Postfix, Wrap16;
    PostfixSplit(q);
    BothBefore(s, cur + 1 - Size(q), cur, cur);
  }

  /** Both operands of an operator, the left one where the offset says. */
  lemma JoinAt(q: Query, s: seq<Item>, cur: int)
    requires EndsAt(q, s, cur) && q.Join? && Size(q.r) < 0x8000
    ensures EndsAt(q.r, s, cur - 1)
    ensures EndsAt(q.l, s, cur + JoinItem(q.all, Size(q.r)).left)
  {
    hide Postfix, Wrap16;
    PostfixSplit(q);
    OffsetExact(Size(q.r));
    BothBefore(s, cur + 1 - Size(q), cur - Size(q.r), cur);
  }

  /** execute (lines 265-292) over an array, for the operand that ends at cur. */
  method Execute(items: array<Item>, cur: int, arr: array<int32>, n: nat, calcnot: bool, ghost q: Query)
    returns (r: bool)
    requires 0 <= cur < items.Length && EndsAt(q, items[..], cur)
    requires OffsetsFit(q) && n <= arr.Length && Sorted(arr[..n])
    ensures r <==> Eval(q, arr[..n], calcnot)
    decreases Size(q)
  {
    hide EndsAt, Wrap16, Sorted, JoinItem, Postfix;
    ghost var s := items[..];
    ValueAt(q, s, cur);
    JoinKind(q);
    if items[cur].kind == VAL {
      r := CheckConditionArr(arr, n, items[cur].val);
    } else if items[cur].val == NOT {
      if calcnot {
        NotAt(q, s, cur);
        EndsInside(q.q, s, cur - 1);
        r := Execute(items, cur - 1, arr, n, calcnot, q.q);
        r := if r then false else true;
      } else {
        r := true;
      }
    } else {
      JoinAt(q, s, cur);
      EndsInside(q.l, s, cur + items[cur].left);
      EndsInside(q.r, s, cur - 1);
      r := Execute(items, cur + items[cur].left, arr, n, calcnot, q.l);
      if items[cur].val == AND {
        if r {
          r := Execute(items, cur - 1, arr, n, calcnot, q.r);
        }
      } else if !r {
        r := Execute(items, cur - 1, arr, n, calcnot, q.r);
      }
    }
  }

  lemma JoinKind(q: Query)
    ensures q.Join? ==> JoinItem(q.all, Size(q.r)).kind == OPR
                        && JoinItem(q.all, Size(q.r)).val == if q.all then AND else OR
    ensures Size(q) > 0
    ensures q.Not? ==> Size(q.q) < Size(q)
    ensures q.Join? ==> Size(q.l) < Size(q) && Size(q.r) < Size(q)
  {
  }

  lemma EndsInside(q: Query, s: seq<Item>, cur: int)
    requires EndsAt(q, s, cur)
    ensures 0 <= cur < |s|
  {
    SizePositive(q);
  }

  /** execconsistent (lines 307-320). */
  method ExecConsistent(items: array<Item>, arr: array<int32>, n: nat, calcnot: bool, ghost q: Query)
    returns (r: bool)
    requires items[..] == Postfix(q) && OffsetsFit(q) && n <= arr.Length && Sorted(arr[..n])
    ensures r <==> Eval(q, arr[..n], calcnot)
  {
    SizePositive(q);
    assert items[..][0..items.Length] == items[..];
    r := Execute(items, items.Length - 1, arr, n, calcnot, q);
  }

  /** boolop (lines 373-401): the operator itself, on a row as it is stored. */
  method BoolOp(row: seq<int32>, items: array<Item>, ghost q: Query) returns (r: bool)
    requires items[..] == Postfix(q) && OffsetsFit(q)
    ensures r <==> |row| > 0 && Eval(q, row, true)
  {
    if |row| == 0 {
      return false;
    }
    var val := new int32[|row|](i requires 0 <= i < |row| => row[i]);
    assert val[..] == row;
    var n := PrepareArr(val);
    EvalSame(q, val[..n], row, true);
    r := ExecConsistent(items, val, n, true, q);
  }
}
