/** Index search over integer arrays (g_int_consistent in contrib/intarray/_int_gist.c) never
    loses a matching row.
 */
module IntIndex {
  import opened IntArrays
  import opened IntKeys
  import opened IntExpand
  import opened IntQueries
  import opened IntQueryLaws

  // The strategy numbers of gist__int_ops.
  const OVERLAP: nat := 3
  const SAME: nat := 6
  const CONTAINS: nat := 7
  const CONTAINED_BY: nat := 8
  const OLD_CONTAINS: nat := 13
  const OLD_CONTAINED_BY: nat := 14
  const BOOLEAN_SEARCH: nat := 20

  /** What g_int_consistent answers for a key. */
  ghost predicate Answer(strategy: nat, key: seq<int32>, leaf: bool, query: seq<int32>) {
    && |query| > 0
    && if strategy == OVERLAP then Meets(key, query)
       else if strategy == SAME && leaf then SameMembers(key, query)
       else if strategy == SAME || strategy == CONTAINS || strategy == OLD_CONTAINS then
         |key| > 0 && Subset(query, key)
       else if strategy == CONTAINED_BY || strategy == OLD_CONTAINED_BY then
         if leaf then |key| > 0 && Subset(key, query) else Meets(key, query)
       else false
  }

  /** What the operator behind a strategy says of a row as it is stored. */
  ghost predicate Matches(strategy: nat, row: seq<int32>, query: seq<int32>) {
    if strategy == OVERLAP then Meets(row, query)
    else if strategy == SAME then row == query
    else if strategy == CONTAINS || strategy == OLD_CONTAINS then
      |row| > 0 && |query| > 0 && Subset(query, row)
    else if strategy == CONTAINED_BY || strategy == OLD_CONTAINED_BY then
      |row| > 0 && |query| > 0 && Subset(row, query)
    else false
  }

  /** g_int_consistent (lines 31-95).  What the query points to, an array or the items of a
      boolean query, depends on the strategy. */
  method Consistent(key: array<int32>, nk: nat, leaf: bool, query: seq<int32>, items: array<Item>, strategy: nat,
                    ghost q: Query) returns (retval: bool)
    requires nk <= key.Length && Strict(key[..nk])
    requires strategy == BOOLEAN_SEARCH ==> items[..] == Postfix(q) && OffsetsFit(q)
    ensures retval <==>
            Test(if strategy == BOOLEAN_SEARCH then Boolean(q) else Operator(strategy, query), key[..nk], leaf)
  {
    hide Strict, Sorted, Answer, Eval, Postfix;
    if strategy == BOOLEAN_SEARCH {
      StrictSorted(key[..nk]);
      retval := ExecConsistent(items, key, nk, leaf, q);
    } else {
      retval := ConsistentArray(key, nk, leaf, query, strategy);
    }
  }

  /** Lines 49-94: all strategies but the boolean one. */
  method ConsistentArray(key: array<int32>, nk: nat, leaf: bool, query0: seq<int32>, strategy: nat)
    returns (retval: bool)
    requires nk <= key.Length && Strict(key[..nk])
    ensures retval <==> Answer(strategy, key[..nk], leaf, query0)
  {
    hide Strict, Sorted, Meets, Subset, SameMembers, Answer;
    ghost var k := key[..nk];
    if |query0| == 0 {
      NoAnswer(strategy, k, leaf, query0);
      return false;
    }
    var query := new int32[|query0|](i requires 0 <= i < |query0| => query0[i]);
    assert query[..] == query0;
    var n := PrepareArr(query);
    ghost var q := query[..n];
    StrictSorted(k);
    StrictSorted(q);
    PreparedAnswer(strategy, k, leaf, query0, q);
    if strategy == OVERLAP {
      retval := InnerOverlap(key, nk, query, n);
    } else if strategy == SAME {
      if leaf {
        retval := SameArrays(key, nk, query, n);
      } else {
        retval := InnerContains(key, nk, query, n);
      }
    } else if strategy == CONTAINS || strategy == OLD_CONTAINS {
      retval := InnerContains(key, nk, query, n);
    } else if strategy == CONTAINED_BY || strategy == OLD_CONTAINED_BY {
      if leaf {
        retval := InnerContains(query, n, key, nk);
      } else {
        retval := InnerOverlap(key, nk, query, n);
      }
    } else {
      retval := false;
    }
  }

  lemma StrictSorted(s: seq<int32>)
    requires Strict(s)
    ensures Sorted(s)
  {
  }

  lemma NoAnswer(strategy: nat, key: seq<int32>, leaf: bool, query: seq<int32>)
    requires |query| == 0
    ensures !Answer(strategy, key, leaf, query)
  {
  }

  /** The answer on the prepared query: sorting and removing doubles does not change it. */
  lemma PreparedAnswer(strategy: nat, key: seq<int32>, leaf: bool, query: seq<int32>, q: seq<int32>)
    requires |query| > 0 && Strict(key) && Strict(q) && SameMembers(q, query)
    ensures |q| > 0
    ensures Answer(strategy, key, leaf, query) <==>
            if strategy == OVERLAP then Meets(key, q)
            else if strategy == SAME && leaf then key == q
            else if strategy == SAME || strategy == CONTAINS || strategy == OLD_CONTAINS then
              |key| > 0 && |q| > 0 && Subset(q, key)
            else if strategy == CONTAINED_BY || strategy == OLD_CONTAINED_BY then
              if leaf then |q| > 0 && |key| > 0 && Subset(key, q) else Meets(key, q)
            else false
  {
    hide Strict;
    Inhabited(query);
    assert query[0] in q;
    if SameMembers(key, query) {
      assert SameMembers(key, q);
      StrictUnique(key, q);
    }
    assert Meets(key, query) <==> Meets(key, q);
    assert Subset(query, key) <==> Subset(q, key);
    assert Subset(key, query) <==> Subset(key, q);
  }

  // ---- No row is lost ----

  /** A matching row passes the test on its own key and on every inner key that covers it.  The
      one exception is an empty row asked for with an empty query, which no test lets through. */
  lemma NeverLost(strategy: nat, row: seq<int32>, query: seq<int32>, leafKey: seq<int32>, innerKey: seq<int32>)
    requires Matches(strategy, row, query)
    requires Strict(leafKey) && SameMembers(leafKey, row) && Subset(leafKey, innerKey)
    ensures Answer(strategy, leafKey, true, query) <==> !(strategy == SAME && |query| == 0)
    ensures Answer(strategy, innerKey, false, query) <==> !(strategy == SAME && |query| == 0)
  {
    Inhabited(row);
    Inhabited(query);
    if strategy == OVERLAP {
      var x :| x in row && x in query;
      assert x in leafKey && x in innerKey;
    } else if |query| > 0 {
      assert row[0] in leafKey && row[0] in innerKey;
    }
  }

  /** On leaf keys the test is exact, but for equality, which is checked again on the row. */
  lemma LeafExact(strategy: nat, row: seq<int32>, query: seq<int32>, leafKey: seq<int32>)
    requires strategy != SAME && SameMembers(leafKey, row)
    ensures Answer(strategy, leafKey, true, query) <==> Matches(strategy, row, query)
  {
    Inhabited(row);
    Inhabited(leafKey);
    assert |row| > 0 <==> |leafKey| > 0;
    if Meets(row, query) {
      var x :| x in row && x in query;
      assert x in leafKey;
      Inhabited(query);
    }
    if Meets(leafKey, query) {
      var x :| x in leafKey && x in query;
      assert x in row;
    }
    assert Subset(query, row) <==> Subset(query, leafKey);
    assert Subset(row, query) <==> Subset(leafKey, query);
  }

  /** The same for boolean queries: what boolop finds in a row, execconsistent finds in its key
      and, with negations taken for true, in every inner key. */
  lemma BooleanNeverLost(q: Query, row: seq<int32>, leafKey: seq<int32>, innerKey: seq<int32>)
    requires Eval(q, row, true) && SameMembers(leafKey, row) && Subset(leafKey, innerKey)
    ensures Eval(q, leafKey, true) && Eval(q, innerKey, false)
  {
    EvalSame(q, row, leafKey, true);
    EvalWidens(q, leafKey, innerKey);
  }

  /** On inner keys the test is as sharp as it can be: it lets a key pass if and only if some row
      over the elements of the key matches. */
  lemma InnerExact(strategy: nat, key: seq<int32>, query: seq<int32>)
    requires !(strategy == SAME && |query| == 0)
    ensures Answer(strategy, key, false, query) <==> exists row :: Subset(row, key) && Matches(strategy, row, query)
  {
    if Answer(strategy, key, false, query) {
      var row := query;
      if strategy == OVERLAP || strategy == CONTAINED_BY || strategy == OLD_CONTAINED_BY {
        var x :| x in key && x in query;
        row := [x];
        assert x in row;
      }
      assert Subset(row, key) && Matches(strategy, row, query);
    }
    if row :| Subset(row, key) && Matches(strategy, row, query) {
      Inhabited(row);
      Inhabited(query);
      Inhabited(key);
      if strategy == OVERLAP {
        var x :| x in row && x in query;
        assert x in key;
      } else {
        assert row[0] in key;
      }
    }
  }

  // ---- The whole tree ----

  /** A search condition: one of the operators, or a boolean query. */
  datatype Condition = Operator(strategy: nat, query: seq<int32>) | Boolean(q: Query)

  ghost predicate Test(c: Condition, key: seq<int32>, leaf: bool) {
    if c.Operator? then Answer(c.strategy, key, leaf, c.query) else Eval(c.q, key, leaf)
  }

  ghost predicate Satisfies(c: Condition, row: seq<int32>) {
    if c.Operator? then Matches(c.strategy, row, c.query) else |row| > 0 && Eval(c.q, row, true)
  }

  /** Inner tests are as sharp for boolean queries without negation. */
  lemma BooleanInnerExact(q: Query, key: seq<int32>)
    requires NotFree(q)
    ensures Eval(q, key, false) <==> exists row :: Subset(row, key) && Satisfies(Boolean(q), row)
  {
    NotFreeExact(q, key);
    if Eval(q, key, false) {
      Nonempty(q, key);
      assert Subset(key, key) && Satisfies(Boolean(q), key);
    }
    if row :| Subset(row, key) && Satisfies(Boolean(q), row) {
      EvalWidens(q, row, key);
    }
  }

  lemma {:induction false} Nonempty(q: Query, members: seq<int32>)
    requires NotFree(q) && Eval(q, members, true)
    ensures |members| > 0
  {
    match q
    case Value(v) =>
    case Join(_, l, r) =>
      if Eval(l, members, true) {
        Nonempty(l, members);
      } else {
        Nonempty(r, members);
      }
  }

  /** A boolean query of one connective is the operator for that connective. */
  lemma OperatorsAgree(q: Query, row: seq<int32>)
    ensures Joins(q, true) ==> (Satisfies(Boolean(q), row) <==> Matches(CONTAINS, row, Values(q)))
    ensures Joins(q, false) ==> (Satisfies(Boolean(q), row) <==> Matches(OVERLAP, row, Values(q)))
  {
    if Joins(q, true) {
      AllOf(q, row, true);
    }
    if Joins(q, false) {
      OneOf(q, row, true);
      assert Meets(Values(q), row) <==> Meets(row, Values(q));
    }
  }

  /** An index: a leaf stores its prepared row, an inner entry the compressed union of the keys
      below it; the key is what a search reads back. */
  datatype Tree =
    | Leaf(row: seq<int32>, stored: seq<int32>, key: seq<int32>)
    | Inner(all: seq<int32>, stored: seq<int32>, key: seq<int32>, below: seq<Tree>)

  ghost predicate ReadBack(stored: seq<int32>, key: seq<int32>) {
    if |stored| < 2 * MAX_RANGES then key == stored else Expanded(stored, |stored|, key)
  }

  ghost predicate WellBuilt(t: Tree) {
    && ReadBack(t.stored, t.key)
    && match t
       case Leaf(row, stored, _) =>
         && Strict(stored) && SameMembers(stored, row)
         && (|stored| >= 2 * MAX_RANGES ==> |stored| % 2 == 0)
       case Inner(all, stored, _, below) =>
         && Strict(all) && Compressed(all, stored)
         && forall i :: 0 <= i < |below| ==> WellBuilt(below[i]) && Subset(below[i].key, all)
  }

  ghost predicate Holds(t: Tree, row: seq<int32>) {
    match t
    case Leaf(r, _, _) => r == row
    case Inner(_, _, _, below) => exists i :: 0 <= i < |below| && Holds(below[i], row)
  }

  /** The search comes to the row: every test on the way down lets it pass. */
  ghost predicate Finds(c: Condition, t: Tree, row: seq<int32>) {
    && Test(c, t.key, t.Leaf?)
    && match t
       case Leaf(r, _, _) => r == row
       case Inner(_, _, _, below) => exists i :: 0 <= i < |below| && Finds(c, below[i], row)
  }

  ghost predicate EmptyEquality(c: Condition) {
    c.Operator? && c.strategy == SAME && |c.query| == 0
  }

  /** More members never make the condition false. */
  ghost predicate Monotone(c: Condition) {
    match c
    case Operator(strategy, _) => strategy == OVERLAP || strategy == CONTAINS || strategy == OLD_CONTAINS
    case Boolean(q) => NotFree(q)
  }

  /** The leaves of the tree are read back as they were stored: they have fewer than 200
      elements, or only pairs of neighbours. */
  ghost predicate LeavesKept(t: Tree) {
    match t
    case Leaf(_, stored, _) => |stored| < 2 * MAX_RANGES || Neighbours(stored)
    case Inner(_, _, _, below) => forall i :: 0 <= i < |below| ==> LeavesKept(below[i])
  }

  lemma LeafKey(row: seq<int32>, stored: seq<int32>, key: seq<int32>)
    requires WellBuilt(Leaf(row, stored, key))
    ensures Strict(key) && Subset(row, key)
    ensures |stored| < 2 * MAX_RANGES || Neighbours(stored) ==> SameMembers(key, row)
  {
    if |stored| >= 2 * MAX_RANGES {
      StrictRanges(stored, key);
      BigLeafKept(stored, key);
    }
  }

  /** Strictly sorted elements read as ranges cover themselves. */
  lemma StrictRanges(stored: seq<int32>, key: seq<int32>)
    requires Strict(stored) && |stored| % 2 == 0 && Expanded(stored, |stored|, key)
    ensures Subset(stored, key)
  {
    assert stored[..|stored|] == stored;
    forall x: int32 | x in stored
      ensures x in key
    {
      var k :| 0 <= k < |stored| && stored[k] == x;
      if k % 2 == 0 {
        assert stored[k] < stored[k + 1];
        CoveredAt(stored, k, x);
      } else {
        assert stored[k - 1] < stored[k];
        CoveredAt(stored, k - 1, x);
      }
    }
  }

  /** Every key on the way down to a row holds all of the row. */
  lemma {:induction false} KeyCovers(t: Tree, row: seq<int32>)
    requires WellBuilt(t) && Holds(t, row)
    ensures Strict(t.key) && Subset(row, t.key)
  {
    match t
    case Leaf(_, stored, key) =>
      LeafKey(row, stored, key);
    case Inner(all, stored, key, below) =>
      var i :| 0 <= i < |below| && Holds(below[i], row);
      KeyCovers(below[i], row);
      OnlyWidens(all, stored, key);
  }

  /** A condition that is monotone is tested on leaves as it is on inner keys. */
  lemma MonotoneTest(c: Condition, key: seq<int32>)
    requires Monotone(c)
    ensures Test(c, key, true) <==> Test(c, key, false)
  {
    if c.Boolean? {
      NotFreeExact(c.q, key);
    }
  }

  /** A satisfied condition holds of the row's own members, as stored in a leaf, and of every
      inner key above them. */
  lemma TestWidens(c: Condition, row: seq<int32>, key: seq<int32>)
    requires Strict(key) && Subset(row, key) && Satisfies(c, row) && !EmptyEquality(c)
    ensures Test(c, key, false)
    ensures SameMembers(key, row) ==> Test(c, key, true)
  {
    hide Strict, Answer, Matches, Eval;
    PreparedStrict(row);
    var p := Prepared(row);
    match c
    case Operator(strategy, query) =>
      NeverLost(strategy, row, query, p, key);
      if SameMembers(key, row) {
        NeverLost(strategy, row, query, key, key);
      }
    case Boolean(q) =>
      BooleanNeverLost(q, row, p, key);
      if SameMembers(key, row) {
        BooleanNeverLost(q, row, key, key);
      }
  }

  /** The strictly sorted array of the members of s. */
  ghost function Prepared(s: seq<int32>): seq<int32> {
    if |s| == 0 then [] else Insert(Prepared(s[1..]), s[0])
  }

  ghost function Insert(s: seq<int32>, x: int32): seq<int32> {
    if |s| == 0 then [x]
    else if x < s[0] then [x] + s
    else if x == s[0] then s
    else [s[0]] + Insert(s[1..], x)
  }

  lemma {:induction false} InsertStrict(s: seq<int32>, x: int32)
    requires Strict(s)
    ensures Strict(Insert(s, x))
    ensures forall y: int32 :: y in Insert(s, x) <==> y in s || y == x
  {
    if |s| > 0 {
      assert s == [s[0]] + s[1..];
      if x > s[0] {
        InsertStrict(s[1..], x);
        var t := Insert(s[1..], x);
        forall k | 0 <= k < |t|
          ensures s[0] < t[k]
        {
          assert t[k] in t;
        }
      }
    }
  }

  lemma {:induction false} PreparedStrict(s: seq<int32>)
    ensures Strict(Prepared(s)) && SameMembers(Prepared(s), s)
  {
    if |s| > 0 {
      PreparedStrict(s[1..]);
      InsertStrict(Prepared(s[1..]), s[0]);
      assert s == [s[0]] + s[1..];
    }
  }

  /** Some leaf that stores the row passes the test on its own key. */
  ghost predicate LeafPasses(c: Condition, t: Tree, row: seq<int32>) {
    match t
    case Leaf(r, _, key) => r == row && Test(c, key, true)
    case Inner(_, _, _, below) => exists i :: 0 <= i < |below| && LeafPasses(c, below[i], row)
  }

  lemma {:induction false} LeafHolds(c: Condition, t: Tree, row: seq<int32>)
    requires LeafPasses(c, t, row)
    ensures Holds(t, row) && !EmptyEquality(c)
  {
    match t
    case Leaf(_, _, _) =>
    case Inner(_, _, _, below) =>
      var i :| 0 <= i < |below| && LeafPasses(c, below[i], row);
      LeafHolds(c, below[i], row);
  }

  /** Inner keys never lose a row: in every tree, whatever its depth and however its keys were
      compressed, a search comes to a row that satisfies its condition exactly if a leaf that
      stores the row passes the test. */
  lemma {:induction false} FindsExactly(c: Condition, t: Tree, row: seq<int32>)
    requires WellBuilt(t) && Satisfies(c, row)
    ensures Finds(c, t, row) <==> LeafPasses(c, t, row)
  {
    if LeafPasses(c, t, row) {
      LeafHolds(c, t, row);
      KeyCovers(t, row);
      TestWidens(c, row, t.key);
    }
    if t.Inner? {
      forall i | 0 <= i < |t.below|
        ensures Finds(c, t.below[i], row) <==> LeafPasses(c, t.below[i], row)
      {
        FindsExactly(c, t.below[i], row);
      }
    }
  }

  /** In a tree whose leaves are read back as stored, and for conditions that more members never
      make false in every tree, a search comes to every row that satisfies its condition, except
      to an empty row that is asked for with an empty query. */
  lemma IndexFinds(c: Condition, t: Tree, row: seq<int32>)
    requires WellBuilt(t) && Holds(t, row) && Satisfies(c, row)
    requires LeavesKept(t) || Monotone(c)
    ensures Finds(c, t, row) <==> !EmptyEquality(c)
  {
    FindsExactly(c, t, row);
    if LeafPasses(c, t, row) {
      LeafHolds(c, t, row);
    }
    if !EmptyEquality(c) {
      KeptPasses(c, t, row);
    }
  }

  lemma {:induction false} KeptPasses(c: Condition, t: Tree, row: seq<int32>)
    requires WellBuilt(t) && Holds(t, row) && Satisfies(c, row) && !EmptyEquality(c)
    requires LeavesKept(t) || Monotone(c)
    ensures LeafPasses(c, t, row)
  {
    match t
    case Leaf(_, stored, key) =>
      LeafKey(row, stored, key);
      TestWidens(c, row, key);
      if Monotone(c) {
        MonotoneTest(c, key);
      }
    case Inner(_, _, _, below) =>
      var i :| 0 <= i < |below| && Holds(below[i], row);
      KeptPasses(c, below[i], row);
  }

  /** What a leaf of any size answers to the conditions that more members can make false: it is
      found by contained-by unless its key holds more than the query, by a boolean query unless
      the key fails it, and by equality if it is read back as stored. */
  lemma LeafAnswers(c: Condition, row: seq<int32>, stored: seq<int32>, key: seq<int32>)
    requires WellBuilt(Leaf(row, stored, key)) && Satisfies(c, row)
    ensures var found := Finds(c, Leaf(row, stored, key), row);
            if c.Boolean? then found <==> Eval(c.q, key, true)
            else
              && (c.strategy == CONTAINED_BY || c.strategy == OLD_CONTAINED_BY ==> (found <==> Subset(key, c.query)))
              && (c.strategy == SAME ==>
                    (found <==> |c.query| > 0 && (|stored| < 2 * MAX_RANGES || Neighbours(stored))))
  {
    hide Neighbours, Expanded;
    LeafKey(row, stored, key);
    Inhabited(row);
    if |stored| >= 2 * MAX_RANGES {
      BigLeafKept(stored, key);
      if SameMembers(key, row) {
        StrictUnique(key, stored);
      }
    }
  }

  /** Every member x that reading the leaf back has added loses the row: to the search for rows
      contained in it, and to the search for rows without x. */
  lemma GapLost(row: seq<int32>, stored: seq<int32>, key: seq<int32>, x: int32)
    requires WellBuilt(Leaf(row, stored, key)) && |row| > 0 && x in key && x !in row
    ensures Satisfies(Operator(CONTAINED_BY, row), row)
    ensures !Finds(Operator(CONTAINED_BY, row), Leaf(row, stored, key), row)
    ensures Satisfies(Boolean(Not(Value(x))), row)
    ensures !Finds(Boolean(Not(Value(x))), Leaf(row, stored, key), row)
  {
    LeafAnswers(Operator(CONTAINED_BY, row), row, stored, key);
    assert !Eval(Value(x), row, true) && Eval(Not(Value(x)), row, true);
    assert Eval(Value(x), key, true) && !Eval(Not(Value(x)), key, true);
    LeafAnswers(Boolean(Not(Value(x))), row, stored, key);
  }

  /** The conditions whose result is not checked again on the row: all but equality. */
  ghost predicate NotRechecked(c: Condition) {
    c.Operator? ==> c.strategy != SAME
  }

  /** A large leaf is found by every condition its row satisfies exactly if it is read back as
      stored. */
  lemma BigLeafLost(row: seq<int32>, stored: seq<int32>, key: seq<int32>)
    requires WellBuilt(Leaf(row, stored, key)) && |stored| >= 2 * MAX_RANGES
    ensures (forall c :: Satisfies(c, row) && !EmptyEquality(c) ==> Finds(c, Leaf(row, stored, key), row))
            <==> Neighbours(stored)
  {
    hide Neighbours, Expanded, Answer, Eval, Matches;
    var t := Leaf(row, stored, key);
    if Neighbours(stored) {
      forall c | Satisfies(c, row) && !EmptyEquality(c)
        ensures Finds(c, t, row)
      {
        IndexFinds(c, t, row);
      }
    } else {
      LongRow(row, stored);
      LeafAnswers(Operator(SAME, row), row, stored, key);
    }
  }

  lemma LongRow(row: seq<int32>, stored: seq<int32>)
    requires SameMembers(stored, row) && |stored| > 0
    ensures |row| > 0 && Satisfies(Operator(SAME, row), row)
  {
    Inhabited(stored);
  }

  // ---- No other row is found ----

  /** In a tree whose leaves are read back as stored, a row that is found satisfies the condition,
      except that an empty row is found by boolean queries, which boolop never lets it satisfy. */
  lemma {:induction false} SearchSound(c: Condition, t: Tree, row: seq<int32>)
    requires WellBuilt(t) && LeavesKept(t) && NotRechecked(c) && Finds(c, t, row)
    ensures Satisfies(c, row) <==> !(c.Boolean? && |row| == 0)
  {
    match t
    case Leaf(_, stored, key) =>
      LeafKey(row, stored, key);
      match c {
        case Operator(strategy, query) =>
          LeafExact(strategy, row, query, key);
        case Boolean(q) =>
          EvalSame(q, row, key, true);
      }
    case Inner(_, _, _, below) =>
      var i :| 0 <= i < |below| && Finds(c, below[i], row);
      SearchSound(c, below[i], row);
  }

  /** A large leaf is found only by conditions its row satisfies exactly if it is read back as
      stored. */
  lemma BigLeafSound(row: seq<int32>, stored: seq<int32>, key: seq<int32>)
    requires WellBuilt(Leaf(row, stored, key)) && |stored| >= 2 * MAX_RANGES
    ensures (forall c :: NotRechecked(c) && Finds(c, Leaf(row, stored, key), row) ==> Satisfies(c, row))
            <==> Neighbours(stored)
  {
    hide Neighbours, Expanded, Eval, Strict;
    var t := Leaf(row, stored, key);
    LongRow(row, stored);
    LeafKey(row, stored, key);
    BigLeafKept(stored, key);
    if Neighbours(stored) {
      forall c | NotRechecked(c) && Finds(c, t, row)
        ensures Satisfies(c, row)
      {
        SearchSound(c, t, row);
      }
    } else {
      if forall x: int32 :: x in key ==> x in row {
        StrictUnique(key, stored);
      }
      var x: int32 :| x in key && x !in row;
      var c := Operator(OVERLAP, [x]);
      assert x in [x];
      assert NotRechecked(c) && Finds(c, t, row) && !Satisfies(c, row);
    }
  }
}
