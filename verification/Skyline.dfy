/** Block-nested-loops skyline with a bounded window (thesis/bnl/Program.cs).

    The loops are first given as steps on a state of window, queues and counters; everything
    proved about them is proved for every strict order and every window size, and the corrected
    loop ends for every window size but 0.
 */
module Skyline {

  datatype Point = Point(id: string, d1: int, d2: int)

  /** A point and the timestamp it was given when it was read. */
  datatype Tuple = Tuple(p: Point, ts: nat)

  type Dominance = (Point, Point) -> bool

  ghost predicate StrictOrder(dom: Dominance) {
    && (forall x :: !dom(x, x))
    && (forall x, y, z :: dom(x, y) && dom(y, z) ==> dom(x, z))
  }

  ghost predicate Incomparable(dom: Dominance, x: Point, y: Point) {
    !dom(x, y) && !dom(y, x)
  }

  // ---- Bags of points ----

  ghost function Points(s: seq<Tuple>): (r: seq<Point>)
    ensures |r| == |s|
  {
    seq(|s|, k requires 0 <= k < |s| => s[k].p)
  }

  ghost function Bag(s: seq<Tuple>): multiset<Point> {
    multiset(Points(s))
  }

  lemma BagConcat(s: seq<Tuple>, t: seq<Tuple>)
    ensures Bag(s + t) == Bag(s) + Bag(t)
  {
    assert Points(s + t) == Points(s) + Points(t);
  }

  lemma BagOne(q: Tuple)
    ensures Bag([q]) == multiset{q.p}
  {
    assert Points([q]) == [q.p];
  }

  lemma BagMember(s: seq<Tuple>, x: Point)
    ensures x in Bag(s) <==> exists q :: q in s && q.p == x
  {
    if x in Bag(s) {
      var k :| 0 <= k < |s| && Points(s)[k] == x;
      assert s[k] in s;
    }
    if q :| q in s && q.p == x {
      var k :| 0 <= k < |s| && s[k] == q;
      assert Points(s)[k] == x;
    }
  }

  lemma BagHas(s: seq<Tuple>, q: Tuple)
    requires q in s
    ensures q.p in Bag(s)
  {
    BagMember(s, q.p);
  }

  function RemoveAt<T>(s: seq<T>, k: nat): seq<T>
    requires k < |s|
  {
    s[..k] + s[k + 1..]
  }

  lemma BagRemove(s: seq<Tuple>, k: nat)
    requires k < |s|
    ensures Bag(s) == Bag(RemoveAt(s, k)) + multiset{s[k].p}
    ensures forall q :: q in RemoveAt(s, k) ==> q in s
  {
    assert s == s[..k] + ([s[k]] + s[k + 1..]);
    BagConcat(s[..k], [s[k]] + s[k + 1..]);
    BagConcat([s[k]], s[k + 1..]);
    BagConcat(s[..k], s[k + 1..]);
    BagOne(s[k]);
  }

  // ---- The skyline ----

  ghost predicate Undominated(s: multiset<Point>, dom: Dominance, x: Point) {
    forall y :: y in s ==> !dom(y, x)
  }

  /** r is the skyline of s: the undominated points with all their duplicates, nothing else. */
  ghost predicate IsSkyline(r: multiset<Point>, s: multiset<Point>, dom: Dominance) {
    forall x :: r[x] == if Undominated(s, dom, x) then s[x] else 0
  }

  ghost function Dominators(s: multiset<Point>, dom: Dominance, x: Point): set<Point> {
    set y | y in s && dom(y, x)
  }

  /** Every dominated point is dominated by an undominated one. */
  lemma UndominatedAbove(s: multiset<Point>, dom: Dominance, x: Point) returns (m: Point)
    requires StrictOrder(dom) && x in s
    ensures m in s && Undominated(s, dom, m) && (m == x || dom(m, x))
    decreases |Dominators(s, dom, x)|
  {
    if Undominated(s, dom, x) {
      m := x;
    } else {
      var y :| y in s && dom(y, x);
      var a, b := Dominators(s, dom, y), Dominators(s, dom, x);
      assert a <= b && y in b && y !in a;
      Smaller(a, b);
      m := UndominatedAbove(s, dom, y);
    }
  }

  lemma Smaller<T>(a: set<T>, b: set<T>)
    requires a < b
    ensures |a| < |b|
  {
    var c := b - a;
    assert b == a + c;
  }

  /** Incomparable points that keep all undominated ones are exactly the skyline. */
  lemma SkylineReached(live: multiset<Point>, s: multiset<Point>, dom: Dominance)
    requires StrictOrder(dom) && live <= s
    requires forall x :: Undominated(s, dom, x) ==> live[x] == s[x]
    requires forall x, y :: x in live && y in live ==> Incomparable(dom, x, y)
    ensures IsSkyline(live, s, dom)
  {
    forall x
      ensures live[x] == if Undominated(s, dom, x) then s[x] else 0
    {
      if x in live {
        forall y | y in s
          ensures !dom(y, x)
        {
          var m := UndominatedAbove(s, dom, y);
          assert m in live && Incomparable(dom, m, x);
        }
      }
    }
  }

  // ---- The state and its steps ----

  datatype State = State(w: seq<Tuple>, i: seq<Tuple>, t: seq<Tuple>, o: seq<Tuple>, tsIn: nat, tsOut: nat)

  datatype Outcome = Running(s: State) | Finished(s: State)

  function Kept(w: seq<Tuple>, ts: nat): seq<Tuple> {
    if |w| == 0 then [] else (if w[0].ts == ts then [] else [w[0]]) + Kept(w[1..], ts)
  }

  function Emitted(w: seq<Tuple>, ts: nat): seq<Tuple> {
    if |w| == 0 then [] else (if w[0].ts == ts then [w[0]] else []) + Emitted(w[1..], ts)
  }

  /** Propagate (lines 224-236): window tuples whose timestamp is tsIn go to the output. */
  function Propagated(s: State): State {
    s.(w := Kept(s.w, s.tsIn), o := s.o + Emitted(s.w, s.tsIn))
  }

  /** The dominance check (lines 111-124) from window position k on: a removal starts it over. */
  function Check(dom: Dominance, w: seq<Tuple>, p: Point, k: nat): (bool, seq<Tuple>)
    requires k <= |w|
    decreases |w|, |w| - k
  {
    if k == |w| then (true, w)
    else if dom(w[k].p, p) then (false, w)
    else if dom(p, w[k].p) then Check(dom, RemoveAt(w, k), p, 0)
    else Check(dom, w, p, k + 1)
  }

  /** Lines 106-137: one tuple is read. */
  function ReadOne(dom: Dominance, windowsize: nat, s: State): State
    requires |s.i| > 0
  {
    var p := Tuple(s.i[0].p, s.tsOut);
    var (candidate, w) := Check(dom, s.w, p.p, 0);
    var s' := s.(w := w, i := s.i[1..], tsIn := s.tsIn + 1);
    if !candidate then s'
    else if |w| < windowsize then s'.(w := w + [p])
    else s'.(t := s.t + [p], tsOut := s.tsOut + 1)
  }

  /** Lines 94-101: the overflow queue becomes the input of the next pass. */
  function Flip(s: State): State {
    s.(i := s.i + s.t, t := [], tsIn := 0, tsOut := 0)
  }

  /** One iteration of FixedBNL's loop (lines 83-140). */
  function FixedStep(dom: Dominance, windowsize: nat, s: State): Outcome {
    var s1 := Propagated(s);
    if |s1.i| > 0 then Running(ReadOne(dom, windowsize, s1))
    else if s1.tsOut == 0 then Finished(s1)
    else Running(Flip(s1))
  }

  /** One iteration of OriginalBNL's loop (lines 157-208), and its exits. */
  function OriginalStep(dom: Dominance, windowsize: nat, s: State): Outcome {
    if |s.i| == 0 then Finished(s)
    else
      var s1 := ReadOne(dom, windowsize, Propagated(s));
      if |s1.i| > 0 then Running(s1)
      else if s1.tsOut == 0 then Finished(s1)
      else Running(Flip(s1))
  }

  /** The tuples after the loop: what is left in the window is output as well. */
  function Output(s: State): seq<Tuple> {
    s.o + s.w
  }

  // ---- What every step keeps ----

  ghost function Live(s: State): multiset<Point> {
    Bag(s.o) + Bag(s.w) + Bag(s.i) + Bag(s.t)
  }

  /** Nothing undominated has been lost, and nothing made up. */
  ghost predicate Accounted(dom: Dominance, s: State, all: multiset<Point>) {
    && Live(s) <= all
    && forall x :: Undominated(all, dom, x) ==> Live(s)[x] == all[x]
  }

  /** What has been output is comparable to nothing that is left: output is safe when made. */
  ghost predicate Settled(dom: Dominance, s: State) {
    forall x, y :: x in Bag(s.o) && y in Live(s) ==> Incomparable(dom, x, y)
  }

  /** Which tuples a window tuple has already met.  A timestamp below tsIn marks a tuple of
      this pass: it has met what was put into T since.  Any other marks a tuple of an earlier
      pass: it has met all of T, and the input from position ts of this pass on. */
  ghost predicate Met(dom: Dominance, q: Tuple, i: seq<Tuple>, t: seq<Tuple>, tsIn: nat) {
    && (q.ts >= tsIn ==> forall j :: q.ts - tsIn <= j < |i| ==> Incomparable(dom, q.p, i[j].p))
    && forall j :: (if q.ts >= tsIn then 0 else q.ts) <= j < |t| ==> Incomparable(dom, q.p, t[j].p)
  }

  ghost predicate Window(dom: Dominance, s: State) {
    && s.tsOut == |s.t| <= s.tsIn
    && (forall a, b :: a in s.w && b in s.w ==> Incomparable(dom, a.p, b.p))
    && (forall q :: q in s.w ==> Met(dom, q, s.i, s.t, s.tsIn))
  }

  ghost predicate Safe(dom: Dominance, s: State, all: multiset<Point>) {
    Accounted(dom, s, all) && Settled(dom, s) && Window(dom, s)
  }

  lemma StartSafe(dom: Dominance, i: seq<Tuple>)
    ensures Safe(dom, State([], i, [], [], 0, 0), Bag(i))
  {
    assert Points([]) == [];
  }

  lemma {:induction false} PropagateParts(w: seq<Tuple>, ts: nat)
    ensures forall q :: q in Kept(w, ts) <==> q in w && q.ts != ts
    ensures forall q :: q in Emitted(w, ts) <==> q in w && q.ts == ts
    ensures |w| == |Kept(w, ts)| + |Emitted(w, ts)|
    ensures |Emitted(w, ts)| == 0 ==> Kept(w, ts) == w
  {
    if |w| > 0 {
      PropagateParts(w[1..], ts);
      assert w == [w[0]] + w[1..];
    }
  }

  lemma {:induction false} PropagateBag(w: seq<Tuple>, ts: nat)
    ensures Bag(w) == Bag(Kept(w, ts)) + Bag(Emitted(w, ts))
  {
    hide Bag;
    if |w| == 0 {
      BagNone();
    } else {
      PropagateBag(w[1..], ts);
      assert w == [w[0]] + w[1..];
      BagConcat([w[0]], w[1..]);
      PropagateHead(w, ts);
    }
  }

  lemma PropagateHead(w: seq<Tuple>, ts: nat)
    requires |w| > 0
    ensures Bag(Kept(w, ts)) + Bag(Emitted(w, ts))
         == Bag([w[0]]) + (Bag(Kept(w[1..], ts)) + Bag(Emitted(w[1..], ts)))
  {
    hide Bag;
    var k, e := Kept(w[1..], ts), Emitted(w[1..], ts);
    if w[0].ts == ts {
      assert Kept(w, ts) == k && Emitted(w, ts) == [w[0]] + e;
      BagConcat([w[0]], e);
    } else {
      assert Kept(w, ts) == [w[0]] + k && Emitted(w, ts) == e;
      BagConcat([w[0]], k);
    }
  }

  /** Progressive output is safe: a tuple that Propagate emits is incomparable to everything
      in the window and in both queues. */
  lemma EmittedSafe(dom: Dominance, s: State, q: Tuple, x: Point)
    requires Window(dom, s) && q in s.w && q.ts == s.tsIn
    requires x in Bag(s.w) + Bag(s.i) + Bag(s.t)
    ensures Incomparable(dom, q.p, x)
  {
    BagMember(s.w, x);
    BagMember(s.i, x);
    BagMember(s.t, x);
    assert Met(dom, q, s.i, s.t, s.tsIn);
  }

  lemma PropagatedSafe(dom: Dominance, s: State, all: multiset<Point>)
    requires Safe(dom, s, all)
    ensures Safe(dom, Propagated(s), all)
    ensures forall q :: q in Propagated(s).w ==> q in s.w && q.ts != s.tsIn
  {
    hide Bag;
    var s' := Propagated(s);
    var e := Emitted(s.w, s.tsIn);
    PropagateParts(s.w, s.tsIn);
    PropagateBag(s.w, s.tsIn);
    BagConcat(s.o, e);
    assert Live(s') == Live(s);
    forall x, y | x in Bag(s'.o) && y in Live(s')
      ensures Incomparable(dom, x, y)
    {
      if x !in Bag(s.o) {
        BagMember(e, x);
        var q :| q in e && q.p == x;
        if y in Bag(s.o) {
          BagHas(s.w, q);
          assert Incomparable(dom, y, x);
        } else {
          EmittedSafe(dom, s, q, y);
        }
      }
    }
  }

  /** What the dominance check leaves of the window, and what it says about p. */
  lemma {:induction false} CheckFacts(dom: Dominance, w: seq<Tuple>, p: Point, k: nat)
    requires k <= |w| && forall j :: 0 <= j < k ==> Incomparable(dom, w[j].p, p)
    ensures var (candidate, w') := Check(dom, w, p, k);
            && (forall q :: q in w' ==> q in w)
            && Bag(w') <= Bag(w) && |w'| <= |w| && (|w'| == |w| ==> w' == w)
            && (forall x :: Bag(w')[x] != Bag(w)[x] ==> dom(p, x))
            && (candidate ==> forall q :: q in w' ==> Incomparable(dom, q.p, p))
            && (!candidate ==> exists q :: q in w' && dom(q.p, p))
    decreases |w|, |w| - k
  {
    if k < |w| {
      if dom(w[k].p, p) {
        assert w[k] in w;
      } else if dom(p, w[k].p) {
        BagRemove(w, k);
        CheckFacts(dom, RemoveAt(w, k), p, 0);
      } else {
        CheckFacts(dom, w, p, k + 1);
      }
    }
  }

  /** Dropping dominated points does not lose an undominated one. */
  lemma DroppedAccounted(dom: Dominance, s: State, s': State, all: multiset<Point>)
    requires Accounted(dom, s, all) && Live(s') <= Live(s)
    requires forall x :: Live(s')[x] != Live(s)[x] ==> exists y :: y in all && dom(y, x)
    ensures Accounted(dom, s', all)
  {
    forall x | Undominated(all, dom, x)
      ensures Live(s')[x] == all[x]
    {
    }
  }

  lemma ReadSafe(dom: Dominance, windowsize: nat, s: State, all: multiset<Point>)
    requires StrictOrder(dom) && Safe(dom, s, all) && |s.i| > 0
    requires forall q :: q in s.w ==> q.ts != s.tsIn
    ensures Safe(dom, ReadOne(dom, windowsize, s), all)
  {
    ReadLive(dom, windowsize, s, all);
    ReadWindow(dom, windowsize, s);
  }

  lemma ReadBag(dom: Dominance, windowsize: nat, s: State)
    requires |s.i| > 0
    ensures var (candidate, w) := Check(dom, s.w, s.i[0].p, 0);
            Live(ReadOne(dom, windowsize, s)) + Bag(s.w) + (if candidate then multiset{} else multiset{s.i[0].p})
            == Live(s) + Bag(w)
    ensures s.i[0].p in Live(s)
  {
    hide Bag, Check;
    var p := Tuple(s.i[0].p, s.tsOut);
    var (candidate, w) := Check(dom, s.w, p.p, 0);
    assert s.i == [s.i[0]] + s.i[1..];
    BagConcat([s.i[0]], s.i[1..]);
    BagOne(s.i[0]);
    BagOne(p);
    BagConcat(w, [p]);
    BagConcat(s.t, [p]);
  }

  lemma ReadLive(dom: Dominance, windowsize: nat, s: State, all: multiset<Point>)
    requires Accounted(dom, s, all) && Settled(dom, s) && |s.i| > 0
    ensures Accounted(dom, ReadOne(dom, windowsize, s), all) && Settled(dom, ReadOne(dom, windowsize, s))
    ensures Live(ReadOne(dom, windowsize, s)) <= Live(s)
  {
    hide Bag, Check;
    var s' := ReadOne(dom, windowsize, s);
    var x := s.i[0].p;
    var (candidate, w) := Check(dom, s.w, x, 0);
    CheckFacts(dom, s.w, x, 0);
    ReadBag(dom, windowsize, s);
    if !candidate {
      var q :| q in w && dom(q.p, x);
      BagHas(s.w, q);
      assert q.p in Live(s) && q.p in all;
    }
    LessLive(Live(s'), Live(s), Bag(w), Bag(s.w), if candidate then multiset{} else multiset{x});
    DroppedAccounted(dom, s, s', all);
  }

  lemma LessLive(live': multiset<Point>, live: multiset<Point>, w': multiset<Point>, w: multiset<Point>,
                 dropped: multiset<Point>)
    requires live' + w + dropped == live + w' && w' <= w
    ensures live' <= live
    ensures forall x :: live'[x] != live[x] ==> w'[x] != w[x] || x in dropped
  {
    forall x
      ensures live'[x] + w[x] + dropped[x] == live[x] + w'[x]
    {
      assert (live' + w + dropped)[x] == (live + w')[x];
    }
  }

  /** A tuple that stays in the window has met what is put aside now, and one position of the
      input less is left. */
  lemma StillMet(dom: Dominance, q: Tuple, i: seq<Tuple>, t: seq<Tuple>, tsIn: nat, p: Tuple)
    requires |i| > 0 && Met(dom, q, i, t, tsIn) && q.ts != tsIn && |t| <= tsIn
    ensures Met(dom, q, i[1..], t, tsIn + 1)
    ensures Incomparable(dom, q.p, p.p) ==> Met(dom, q, i[1..], t + [p], tsIn + 1)
  {
    if q.ts > tsIn {
      assert forall j :: q.ts - (tsIn + 1) <= j < |i[1..]| ==> i[1..][j] == i[j + 1];
    }
  }

  lemma ReadWindow(dom: Dominance, windowsize: nat, s: State)
    requires StrictOrder(dom) && Window(dom, s) && |s.i| > 0
    requires forall q :: q in s.w ==> q.ts != s.tsIn
    ensures Window(dom, ReadOne(dom, windowsize, s))
  {
    hide Check, Bag, Met;
    var s' := ReadOne(dom, windowsize, s);
    var p := Tuple(s.i[0].p, s.tsOut);
    var (candidate, w) := Check(dom, s.w, p.p, 0);
    CheckFacts(dom, s.w, p.p, 0);
    JustRead(dom, p, s.i[1..], s.t, s.tsIn + 1);
    forall q | q in s'.w
      ensures Met(dom, q, s'.i, s'.t, s'.tsIn)
    {
      if q in w {
        StillMet(dom, q, s.i, s.t, s.tsIn, p);
      }
    }
  }

  lemma JustRead(dom: Dominance, p: Tuple, i: seq<Tuple>, t: seq<Tuple>, tsIn: nat)
    requires p.ts == |t| < tsIn
    ensures Met(dom, p, i, t, tsIn)
  {
  }

  lemma FlipSafe(dom: Dominance, s: State, all: multiset<Point>)
    requires Safe(dom, s, all) && |s.i| == 0
    ensures Safe(dom, Flip(s), all)
  {
    var s' := Flip(s);
    assert s'.i == s.t && Points([]) == [];
    assert Live(s') == Live(s);
    forall q | q in s'.w
      ensures Met(dom, q, s'.i, s'.t, s'.tsIn)
    {
      assert Met(dom, q, s.i, s.t, s.tsIn);
    }
  }

  /** Every step of either loop keeps the invariant. */
  lemma StepSafe(dom: Dominance, windowsize: nat, s: State, all: multiset<Point>, fixed: bool)
    requires StrictOrder(dom) && Safe(dom, s, all)
    ensures Safe(dom, (if fixed then FixedStep(dom, windowsize, s) else OriginalStep(dom, windowsize, s)).s, all)
  {
    hide Safe;
    var s1 := Propagated(s);
    PropagatedSafe(dom, s, all);
    if |s1.i| > 0 {
      ReadSafe(dom, windowsize, s1, all);
      var s2 := ReadOne(dom, windowsize, s1);
      if |s2.i| == 0 {
        FlipSafe(dom, s2, all);
      }
    } else {
      FlipSafe(dom, s1, all);
    }
  }

  /** With both queues empty, what has been output and what the window still holds are the
      skyline. */
  lemma SafeEnd(dom: Dominance, s: State, all: multiset<Point>)
    requires StrictOrder(dom) && Safe(dom, s, all) && |s.i| == 0 && |s.t| == 0
    ensures IsSkyline(Bag(Output(s)), all, dom)
  {
    hide Bag;
    BagConcat(s.o, s.w);
    BagNone();
    var live := Bag(Output(s));
    assert live == Live(s);
    forall x, y | x in live && y in live
      ensures Incomparable(dom, x, y)
    {
      BagMember(s.w, x);
      BagMember(s.w, y);
      if x in Bag(s.o) {
        assert Incomparable(dom, x, y);
      } else if y in Bag(s.o) {
        assert Incomparable(dom, y, x);
      }
    }
    SkylineReached(live, all, dom);
  }

  lemma BagNone()
    ensures Bag([]) == multiset{}
  {
    assert Points([]) == [];
  }

  // ---- FixedBNL terminates ----

  /** Window tuples of this pass were read after at most |t| tuples had been set aside; those
      of an earlier pass are emitted before the input of this pass ends. */
  ghost predicate Timed(s: State) {
    forall q :: q in s.w ==> if q.ts < s.tsIn then q.ts <= |s.t| else q.ts - s.tsIn <= |s.i|
  }

  ghost function LiveCount(s: State): nat {
    |s.w| + |s.i| + |s.t|
  }

  ghost predicate HasEarlier(s: State) {
    exists q :: q in s.w && q.ts >= s.tsIn
  }

  /** How many passes can still end before a tuple has to go: none while a tuple of an earlier
      pass is in the window, two when everything has been set aside with the window empty. */
  ghost function PassesLeft(s: State): nat {
    if HasEarlier(s) then 0 else if |s.t| > 0 && |s.w| == 0 then 2 else 1
  }

  ghost predicate Less(s: State, s': State) {
    || LiveCount(s) < LiveCount(s')
    || (LiveCount(s) == LiveCount(s') && PassesLeft(s) < PassesLeft(s'))
    || (LiveCount(s) == LiveCount(s') && PassesLeft(s) <= PassesLeft(s') && |s.i| < |s'.i|)
  }

  lemma ReadDecreases(dom: Dominance, windowsize: nat, s: State)
    requires windowsize >= 1 && |s.i| > 0 && Timed(s) && s.tsOut == |s.t| <= s.tsIn
    requires forall q :: q in s.w ==> q.ts != s.tsIn
    ensures var s' := ReadOne(dom, windowsize, s);
            Timed(s') && Less(s', s)
  {
    var s' := ReadOne(dom, windowsize, s);
    var p := Tuple(s.i[0].p, s.tsOut);
    var (candidate, w) := Check(dom, s.w, p.p, 0);
    CheckFacts(dom, s.w, p.p, 0);
    forall q | q in s'.w
      ensures if q.ts < s'.tsIn then q.ts <= |s'.t| else q.ts - s'.tsIn <= |s'.i|
    {
      assert q == p || q in s.w;
    }
    if LiveCount(s') == LiveCount(s) {
      assert w == s.w;
      if HasEarlier(s) {
        var q :| q in s.w && q.ts >= s.tsIn;
        assert q in s'.w && q.ts >= s'.tsIn;
      }
    }
  }

  lemma FlipDecreases(s: State)
    requires |s.i| == 0 && |s.t| > 0 && Timed(s) && s.tsOut == |s.t|
    requires forall q :: q in s.w ==> q.ts != s.tsIn
    ensures Timed(Flip(s)) && Less(Flip(s), s)
  {
    var s' := Flip(s);
    assert forall q :: q in s.w ==> q.ts < s.tsIn;
    assert !HasEarlier(s);
    if |s.w| > 0 {
      assert s'.w[0] in s'.w;
      assert HasEarlier(s');
    }
  }

  lemma PropagatedDecreases(s: State)
    requires Timed(s)
    ensures Timed(Propagated(s))
    ensures Propagated(s) == s || LiveCount(Propagated(s)) < LiveCount(s)
    ensures forall q :: q in Propagated(s).w ==> q.ts != s.tsIn
  {
    PropagateParts(s.w, s.tsIn);
    var e := Emitted(s.w, s.tsIn);
    if |e| == 0 {
      assert s.o + e == s.o;
    }
  }

  /** Every iteration of FixedBNL that goes on makes the measure smaller, whatever the window
      size, so the loop ends. */
  lemma FixedStepDecreases(dom: Dominance, windowsize: nat, s: State)
    requires windowsize >= 1 && Timed(s) && s.tsOut == |s.t| <= s.tsIn
    ensures var r := FixedStep(dom, windowsize, s);
            Timed(r.s) && (r.Running? ==> Less(r.s, s))
  {
    hide ReadOne, Timed, PassesLeft;
    var s1 := Propagated(s);
    PropagatedDecreases(s);
    if |s1.i| > 0 {
      ReadDecreases(dom, windowsize, s1);
    } else if s1.tsOut > 0 {
      FlipDecreases(s1);
    }
  }

  // ---- For which inputs the loop ends ----

  /** n iterations of FixedBNL's loop, or as many as there are. */
  ghost function FixedRun(dom: Dominance, windowsize: nat, s: State, n: nat): Outcome
    decreases n
  {
    if n == 0 then Running(s)
    else
      match FixedStep(dom, windowsize, s)
      case Finished(s') => Finished(s')
      case Running(s') => FixedRun(dom, windowsize, s', n - 1)
  }

  ghost predicate FixedReturns(dom: Dominance, windowsize: nat, s: State) {
    exists n: nat :: FixedRun(dom, windowsize, s, n).Finished?
  }

  lemma {:induction false} WindowReturns(dom: Dominance, windowsize: nat, s: State, all: multiset<Point>)
    requires StrictOrder(dom) && windowsize >= 1 && Safe(dom, s, all) && Timed(s)
    ensures FixedReturns(dom, windowsize, s)
    decreases LiveCount(s), PassesLeft(s), |s.i|
  {
    hide Safe, StrictOrder, FixedStep;
    SafeWindow(dom, s, all);
    StepSafe(dom, windowsize, s, all, true);
    FixedStepDecreases(dom, windowsize, s);
    var r := FixedStep(dom, windowsize, s);
    if r.Finished? {
      assert FixedRun(dom, windowsize, s, 1).Finished?;
    } else {
      hide Timed, PassesLeft, LiveCount;
      WindowReturns(dom, windowsize, r.s, all);
      var n: nat :| FixedRun(dom, windowsize, r.s, n).Finished?;
      assert FixedRun(dom, windowsize, s, n + 1).Finished?;
    }
  }

  /** Without a window every tuple is set aside, pass after pass. */
  lemma {:induction false} NoWindowRuns(dom: Dominance, s: State, n: nat)
    requires |s.w| == 0 && |s.i| + |s.t| > 0 && s.tsOut == |s.t|
    ensures FixedRun(dom, 0, s, n).Running?
    decreases n
  {
    if n > 0 {
      NoWindowRuns(dom, FixedStep(dom, 0, s).s, n - 1);
    }
  }

  /** FixedBNL ends if and only if there is a window or nothing to read. */
  lemma FixedEndsExactly(dom: Dominance, windowsize: nat, input: seq<Tuple>)
    requires StrictOrder(dom)
    ensures FixedReturns(dom, windowsize, State([], input, [], [], 0, 0)) <==> windowsize >= 1 || |input| == 0
  {
    var s := State([], input, [], [], 0, 0);
    if windowsize >= 1 {
      StartSafe(dom, input);
      StartTimed(input);
      WindowReturns(dom, windowsize, s, Bag(input));
    } else if |input| == 0 {
      assert FixedRun(dom, windowsize, s, 1).Finished?;
    } else {
      forall n: nat
        ensures FixedRun(dom, windowsize, s, n).Running?
      {
        NoWindowRuns(dom, s, n);
      }
    }
  }

  // ---- The program ----

  /** List.Remove: the first element equal to q goes. */
  function RemoveFirst(s: seq<Tuple>, q: Tuple): seq<Tuple> {
    if |s| == 0 then [] else if s[0] == q then s[1..] else [s[0]] + RemoveFirst(s[1..], q)
  }

  lemma {:induction false} RemoveFirstAt(s: seq<Tuple>, k: nat)
    requires k < |s| && forall j :: 0 <= j < k ==> s[j] != s[k]
    ensures RemoveFirst(s, s[k]) == RemoveAt(s, k)
  {
    if k > 0 {
      RemoveFirstAt(s[1..], k - 1);
      assert RemoveAt(s, k) == [s[0]] + RemoveAt(s[1..], k - 1);
    }
  }

  lemma {:induction false} EmitFirst(w: seq<Tuple>, k: nat, ts: nat)
    requires k < |w| && w[k].ts == ts && forall j :: 0 <= j < k ==> w[j].ts != ts
    ensures Emitted(w, ts) == [w[k]] + Emitted(RemoveAt(w, k), ts)
    ensures Kept(w, ts) == Kept(RemoveAt(w, k), ts)
  {
    if k == 0 {
      assert RemoveAt(w, 0) == w[1..];
    } else {
      EmitFirst(w[1..], k - 1, ts);
      assert RemoveAt(w, k) == [w[0]] + RemoveAt(w[1..], k - 1);
      assert RemoveAt(w, k)[1..] == RemoveAt(w[1..], k - 1);
    }
  }

  lemma {:induction false} EmitNone(w: seq<Tuple>, ts: nat)
    requires forall j :: 0 <= j < |w| ==> w[j].ts != ts
    ensures Emitted(w, ts) == [] && Kept(w, ts) == w
  {
    if |w| > 0 {
      EmitNone(w[1..], ts);
    }
  }

  /** The lists, queues and counters of the program. */
  class Run {
    var W: seq<Tuple>
    var I: seq<Tuple>
    var T: seq<Tuple>
    var O: seq<Tuple>
    var tsIn: nat
    var tsOut: nat

    constructor (input: seq<Tuple>, output: seq<Tuple>)
      ensures I == input && O == output && W == [] && T == [] && tsIn == 0 && tsOut == 0
    {
      I, O, W, T, tsIn, tsOut := input, output, [], [], 0, 0;
    }

    /** The state, with the output counted from what the caller's queue already held. */
    ghost function St(base: nat): State
      requires base <= |O|
      reads this
    {
      State(W, I, T, O[base..], tsIn, tsOut)
    }

    /** Propagate (lines 224-236): after each removal the scan starts over. */
    method Propagate()
      modifies this`W, this`O
      ensures W == Kept(old(W), tsIn) && O == old(O) + Emitted(old(W), tsIn)
    {
      hide RemoveFirst, Kept, Emitted;
      var k := 0;
      while k < |W|
        invariant k <= |W|
        invariant Kept(W, tsIn) == Kept(old(W), tsIn)
        invariant O + Emitted(W, tsIn) == old(O) + Emitted(old(W), tsIn)
        invariant forall j :: 0 <= j < k ==> W[j].ts != tsIn
        decreases |W|, |W| - k
      {
        var q := W[k];
        if q.ts == tsIn {
          EmitFirst(W, k, tsIn);
          RemoveFirstAt(W, k);
          Regroup(O, q, Emitted(RemoveAt(W, k), tsIn));
          O := O + [q];
          W := RemoveFirst(W, q);
          k := 0;
        } else {
          k := k + 1;
        }
      }
      EmitNone(W, tsIn);
    }

    /** Lines 111-124. */
    method DominanceCheck(dom: Dominance, p: Tuple) returns (candidate: bool)
      modifies this`W
      ensures (candidate, W) == Check(dom, old(W), p.p, 0)
    {
      hide RemoveFirst;
      var k := 0;
      while k < |W|
        invariant k <= |W| && Check(dom, W, p.p, k) == Check(dom, old(W), p.p, 0)
        invariant forall j :: 0 <= j < k ==> !dom(p.p, W[j].p)
        decreases |W|, |W| - k
      {
        var q := W[k];
        if dom(q.p, p.p) {
          return false;
        } else if dom(p.p, q.p) {
          RemoveFirstAt(W, k);
          W := RemoveFirst(W, q);
          k := 0;
        } else {
          k := k + 1;
        }
      }
      return true;
    }

    /** FixedBNL (lines 75-146): it ends, and what it adds to O is the skyline of I. */
    method FixedBNL(dom: Dominance, windowsize: nat) returns (ghost out: seq<Tuple>)
      requires StrictOrder(dom) && (windowsize >= 1 || |I| == 0)
      requires W == [] && T == [] && tsIn == 0 && tsOut == 0
      modifies this
      ensures O == old(O) + out && IsSkyline(Bag(out), Bag(old(I)), dom)
    {
      hide Safe, Timed, Check, Bag, StrictOrder, PassesLeft, IsSkyline, Kept, Emitted;
      ghost var base, all := |O|, Bag(I);
      StartSafe(dom, I);
      assert O[base..] == [];
      StartTimed(I);
      while true
        invariant base <= |O| && O[..base] == old(O)
        invariant Safe(dom, St(base), all) && Timed(St(base))
        invariant windowsize >= 1 || (|I| == 0 && tsOut == 0)
        decreases LiveCount(St(base)), PassesLeft(St(base)), |I|
      {
        ghost var s := St(base);
        SafeWindow(dom, s, all);
        StepSafe(dom, windowsize, s, all, true);
        if windowsize >= 1 {
          FixedStepDecreases(dom, windowsize, s);
        }
        Propagate();
        assert O[base..] == s.o + Emitted(s.w, s.tsIn) && O[..base] == old(O);
        if |I| == 0 {
          if tsOut == 0 {
            assert St(base) == FixedStep(dom, windowsize, s).s;
            break;
          }
          I := I + T;
          T := [];
          tsIn, tsOut := 0, 0;
          assert St(base) == FixedStep(dom, windowsize, s).s;
          continue;
        }
        var p := Tuple(I[0].p, tsOut);
        I := I[1..];
        tsIn := tsIn + 1;
        var candidate := DominanceCheck(dom, p);
        if candidate {
          if |W| < windowsize {
            W := W + [p];
          } else {
            T := T + [p];
            tsOut := tsOut + 1;
          }
        }
        assert St(base) == FixedStep(dom, windowsize, s).s;
      }
      SafeWindow(dom, St(base), all);
      SafeEnd(dom, St(base), all);
      out := Output(St(base));
      O := O + W;
    }
  }

  lemma Regroup(o: seq<Tuple>, q: Tuple, e: seq<Tuple>)
    ensures o + ([q] + e) == (o + [q]) + e
  {
  }

  lemma StartTimed(i: seq<Tuple>)
    ensures Timed(State([], i, [], [], 0, 0))
  {
  }

  lemma SafeWindow(dom: Dominance, s: State, all: multiset<Point>)
    requires Safe(dom, s, all)
    ensures s.tsOut == |s.t| <= s.tsIn
  {
  }
}
