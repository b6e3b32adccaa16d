/** What boolean queries over integer sets mean (contrib/intarray/_int_bool.c:265-320), told
    apart from the way execute takes through them: by clauses, and by the members that a list
    of values asks for.
 */
module IntQueryLaws {
  import opened IntArrays
  import opened IntQueries

  // ---- Clauses ----

  /** A value that has to be there, or one that must not. */
  datatype Literal = Literal(value: int32, wanted: bool)

  ghost predicate ClauseHolds(clause: seq<Literal>, members: seq<int32>) {
    forall i :: 0 <= i < |clause| ==> (clause[i].value in members <==> clause[i].wanted)
  }

  ghost predicate SomeClause(clauses: seq<seq<Literal>>, members: seq<int32>) {
    exists i :: 0 <= i < |clauses| && ClauseHolds(clauses[i], members)
  }

  ghost function Each(clause: seq<Literal>, clauses: seq<seq<Literal>>): (r: seq<seq<Literal>>)
    ensures |r| == |clauses|
  {
    seq(|clauses|, i requires 0 <= i < |clauses| => clause + clauses[i])
  }

  /** Every clause of a with every clause of b. */
  ghost function Products(a: seq<seq<Literal>>, b: seq<seq<Literal>>): seq<seq<Literal>> {
    if a == [] then [] else Each(a[0], b) + Products(a[1..], b)
  }

  /** The disjunctive normal form of a query or of its negation.  Without calcnot every negation
      is the empty clause, which always holds. */
  ghost function Clauses(q: Query, calcnot: bool, positive: bool): seq<seq<Literal>> {
    match q
    case Value(v) => [[Literal(v, positive)]]
    case Not(p) => if calcnot then Clauses(p, calcnot, !positive) else [[]]
    case Join(all, l, r) =>
      var (a, b) := (Clauses(l, calcnot, positive), Clauses(r, calcnot, positive));
      if all == positive then Products(a, b) else a + b
  }

  lemma OneClause(clause: seq<Literal>, members: seq<int32>)
    ensures SomeClause([clause], members) <==> ClauseHolds(clause, members)
  {
    assert [clause][0] == clause;
  }

  lemma SomeOfBoth(a: seq<seq<Literal>>, b: seq<seq<Literal>>, members: seq<int32>)
    ensures SomeClause(a + b, members) <==> SomeClause(a, members) || SomeClause(b, members)
  {
    hide ClauseHolds;
    if i :| 0 <= i < |a| && ClauseHolds(a[i], members) {
      assert (a + b)[i] == a[i];
    }
    if i :| 0 <= i < |b| && ClauseHolds(b[i], members) {
      assert (a + b)[|a| + i] == b[i];
    }
  }

  lemma BothHold(c: seq<Literal>, d: seq<Literal>, members: seq<int32>)
    ensures ClauseHolds(c + d, members) <==> ClauseHolds(c, members) && ClauseHolds(d, members)
  {
    if ClauseHolds(c + d, members) {
      forall i | 0 <= i < |c|
        ensures c[i].value in members <==> c[i].wanted
      {
        assert (c + d)[i] == c[i];
      }
      forall i | 0 <= i < |d|
        ensures d[i].value in members <==> d[i].wanted
      {
        assert (c + d)[|c| + i] == d[i];
      }
    }
  }

  lemma SomeOfEach(c: seq<Literal>, b: seq<seq<Literal>>, members: seq<int32>)
    ensures SomeClause(Each(c, b), members) <==> ClauseHolds(c, members) && SomeClause(b, members)
  {
    hide ClauseHolds;
    forall i | 0 <= i < |b|
      ensures ClauseHolds(Each(c, b)[i], members) <==> ClauseHolds(c, members) && ClauseHolds(b[i], members)
    {
      BothHold(c, b[i], members);
    }
  }

  lemma {:induction false} SomeOfProducts(a: seq<seq<Literal>>, b: seq<seq<Literal>>, members: seq<int32>)
    ensures SomeClause(Products(a, b), members) <==> SomeClause(a, members) && SomeClause(b, members)
  {
    hide Each, ClauseHolds;
    if a != [] {
      SomeOfBoth(Each(a[0], b), Products(a[1..], b), members);
      SomeOfEach(a[0], b, members);
      SomeOfProducts(a[1..], b, members);
      SomeOfBoth([a[0]], a[1..], members);
      OneClause(a[0], members);
      assert a == [a[0]] + a[1..];
    }
  }

  /** A query holds of some members if and only if a clause of its normal form does, and it does
      not hold if and only if a clause of the negation does. */
  lemma {:induction false} NormalForm(q: Query, members: seq<int32>, calcnot: bool, positive: bool)
    requires calcnot || positive
    ensures SomeClause(Clauses(q, calcnot, positive), members) <==> Eval(q, members, calcnot) == positive
  {
    match q
    case Value(v) =>
      OneClause([Literal(v, positive)], members);
      assert [Literal(v, positive)][0] == Literal(v, positive);
    case Not(p) =>
      if calcnot {
        NormalForm(p, members, calcnot, !positive);
      } else {
        OneClause([], members);
      }
    case Join(all, l, r) =>
      hide SomeClause;
      var a, b := Clauses(l, calcnot, positive), Clauses(r, calcnot, positive);
      NormalForm(l, members, calcnot, positive);
      NormalForm(r, members, calcnot, positive);
      SomeOfProducts(a, b, members);
      SomeOfBoth(a, b, members);
  }

  // ---- Queries of one connective ----

  /** Values joined by & alone, or by | alone, in brackets of any shape. */
  ghost predicate Joins(q: Query, all: bool) {
    match q
    case Value(_) => true
    case Not(_) => false
    case Join(a, l, r) => a == all && Joins(l, all) && Joins(r, all)
  }

  ghost function Values(q: Query): (vs: seq<int32>)
    ensures vs != []
  {
    match q
    case Value(v) => [v]
    case Not(p) => Values(p)
    case Join(_, l, r) => Values(l) + Values(r)
  }

  /** Values joined by & are all there. */
  lemma {:induction false} AllOf(q: Query, members: seq<int32>, calcnot: bool)
    requires Joins(q, true)
    ensures Eval(q, members, calcnot) <==> Subset(Values(q), members)
  {
    match q
    case Value(v) =>
    case Join(_, l, r) =>
      AllOf(l, members, calcnot);
      AllOf(r, members, calcnot);
      assert Subset(Values(l) + Values(r), members) <==> Subset(Values(l), members) && Subset(Values(r), members);
  }

  /** Of values joined by | one is there. */
  lemma {:induction false} OneOf(q: Query, members: seq<int32>, calcnot: bool)
    requires Joins(q, false)
    ensures Eval(q, members, calcnot) <==> Meets(Values(q), members)
  {
    match q
    case Value(v) =>
      assert v in [v];
    case Join(_, l, r) =>
      OneOf(l, members, calcnot);
      OneOf(r, members, calcnot);
      assert Meets(Values(l) + Values(r), members) <==> Meets(Values(l), members) || Meets(Values(r), members);
  }

  /** A negated list of values joined by | asks that none of them is there. */
  lemma NoneOf(q: Query, members: seq<int32>)
    requires Joins(q, false)
    ensures Eval(Not(q), members, true) <==> forall i :: 0 <= i < |Values(q)| ==> Values(q)[i] !in members
  {
    OneOf(q, members, true);
    var vs := Values(q);
    if x :| x in vs && x in members {
      var i :| 0 <= i < |vs| && vs[i] == x;
      assert vs[i] in members;
    }
  }
}
