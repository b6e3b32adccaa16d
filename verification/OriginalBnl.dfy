/** The published algorithm, OriginalBNL (thesis/bnl/Program.cs:149-214).

    Its loop need not end, so the method that runs it is cut off after a given number of
    iterations, and what is proved of all runs is proved of iterated steps.  When it returns it
    has output the skyline; it fails to return exactly when some pass starts in a state that
    reproduces itself, and the program's own data set leads there.
 */
module OriginalBnl {
  import opened Skyline

  /** n iterations, or as many as there are. */
  ghost function Iterate(dom: Dominance, windowsize: nat, s: State, n: nat): Outcome
    decreases n
  {
    if n == 0 then Running(s)
    else
      match OriginalStep(dom, windowsize, s)
      case Finished(s') => Finished(s')
      case Running(s') => Iterate(dom, windowsize, s', n - 1)
  }

  /** The first of n iterations, without looking into what it does. */
  lemma IterateOne(dom: Dominance, windowsize: nat, s: State, next: State, n: nat)
    requires n > 0 && OriginalStep(dom, windowsize, s) == Running(next)
    ensures Iterate(dom, windowsize, s, n) == Iterate(dom, windowsize, next, n - 1)
  {
    hide OriginalStep;
  }

  lemma {:induction false} IterateAdd(dom: Dominance, windowsize: nat, s: State, m: nat, n: nat)
    requires Iterate(dom, windowsize, s, m).Running?
    ensures Iterate(dom, windowsize, s, m + n)
         == Iterate(dom, windowsize, Iterate(dom, windowsize, s, m).s, n)
    decreases m
  {
    if m > 0 {
      IterateAdd(dom, windowsize, OriginalStep(dom, windowsize, s).s, m - 1, n);
    }
  }

  ghost predicate Returns(dom: Dominance, windowsize: nat, s: State) {
    exists n: nat :: Iterate(dom, windowsize, s, n).Finished?
  }

  // ---- The program ----

  /** Lines 159-207: one iteration; stop says that the loop is left by the break. */
  method Iteration(r: Run, dom: Dominance, windowsize: nat, ghost base: nat) returns (stop: bool)
    requires |r.I| > 0 && base <= |r.O|
    modifies r
    ensures base <= |r.O| && r.O[..base] == old(r.O[..base])
    ensures OriginalStep(dom, windowsize, old(r.St(base)))
         == if stop then Finished(r.St(base)) else Running(r.St(base))
    ensures stop ==> |r.I| == 0
  {
    hide Check, Kept, Emitted;
    ghost var s := r.St(base);
    r.Propagate();
    assert r.O[base..] == s.o + Emitted(s.w, s.tsIn);
    var p := Tuple(r.I[0].p, r.tsOut);
    r.I := r.I[1..];
    r.tsIn := r.tsIn + 1;
    var candidate := r.DominanceCheck(dom, p);
    if candidate {
      if |r.W| < windowsize {
        r.W := r.W + [p];
      } else {
        r.T := r.T + [p];
        r.tsOut := r.tsOut + 1;
      }
    }
    assert r.St(base) == ReadOne(dom, windowsize, Propagated(s));
    stop := false;
    if |r.I| == 0 {
      if r.tsOut == 0 {
        stop := true;
      } else {
        r.I := r.I + r.T;
        r.T := [];
        r.tsIn, r.tsOut := 0, 0;
      }
    }
  }

  /** OriginalBNL with at most n iterations: whether the loop was left, and the output then. */
  method OriginalBNL(r: Run, dom: Dominance, windowsize: nat, n: nat) returns (returned: bool)
    requires r.W == [] && r.T == [] && r.tsIn == 0 && r.tsOut == 0
    modifies r
    ensures var end := Iterate(dom, windowsize, State([], old(r.I), [], [], 0, 0), n + 1);
            && (returned ==> end.Finished? && r.O == old(r.O) + Output(end.s))
            && (!returned ==>
                  && |old(r.O)| <= |r.O|
                  && Iterate(dom, windowsize, State([], old(r.I), [], [], 0, 0), n) == Running(r.St(|old(r.O)|)))
  {
    hide OriginalStep, IsSkyline;
    ghost var base := |r.O|;
    ghost var s0 := State([], r.I, [], [], 0, 0);
    assert r.St(base) == s0;
    var k := 0;
    var stop := false;
    while |r.I| > 0 && !stop && k < n
      invariant k <= n && base <= |r.O| && r.O[..base] == old(r.O)
      invariant Iterate(dom, windowsize, s0, k) == if stop then Finished(r.St(base)) else Running(r.St(base))
      invariant stop ==> |r.I| == 0
      decreases n - k
    {
      ghost var s := r.St(base);
      stop := Iteration(r, dom, windowsize, base);
      IterateMore(dom, windowsize, s0, k, s, r.St(base), stop);
      k := k + 1;
    }
    ghost var last := r.St(base);
    returned := |r.I| == 0;
    if returned {
      if !stop {
        EmptyStops(dom, windowsize, last);
        IterateMore(dom, windowsize, s0, k, last, last, true);
        k := k + 1;
      }
      FinishedSame(dom, windowsize, s0, k, n + 1);
      assert r.O == old(r.O) + r.O[base..];
      r.O := r.O + r.W;
    }
  }

  lemma EmptyStops(dom: Dominance, windowsize: nat, s: State)
    requires |s.i| == 0
    ensures OriginalStep(dom, windowsize, s) == Finished(s)
  {
  }

  lemma IterateMore(dom: Dominance, windowsize: nat, s0: State, k: nat, s: State, s': State, stop: bool)
    requires Iterate(dom, windowsize, s0, k) == Running(s)
    requires OriginalStep(dom, windowsize, s) == if stop then Finished(s') else Running(s')
    ensures Iterate(dom, windowsize, s0, k + 1) == if stop then Finished(s') else Running(s')
  {
    hide OriginalStep;
    IterateAdd(dom, windowsize, s0, k, 1);
    if !stop {
      IterateOne(dom, windowsize, s, s', 1);
    }
  }

  lemma {:induction false} FinishedSame(dom: Dominance, windowsize: nat, s: State, m: nat, n: nat)
    requires Iterate(dom, windowsize, s, m).Finished? && m <= n
    ensures Iterate(dom, windowsize, s, n) == Iterate(dom, windowsize, s, m)
    decreases m
  {
    hide OriginalStep;
    if m > 0 && OriginalStep(dom, windowsize, s).Running? {
      FinishedSame(dom, windowsize, OriginalStep(dom, windowsize, s).s, m - 1, n - 1);
    }
  }

  // ---- What it returns ----

  lemma {:induction false} RunSafe(dom: Dominance, windowsize: nat, s: State, all: multiset<Point>, n: nat)
    requires StrictOrder(dom) && Safe(dom, s, all) && (|s.i| == 0 ==> |s.t| == 0)
    ensures var r := Iterate(dom, windowsize, s, n);
            Safe(dom, r.s, all) && (r.Finished? ==> |r.s.i| == 0 && |r.s.t| == 0)
    decreases n
  {
    hide Safe, Propagated, ReadOne, StrictOrder;
    if n > 0 {
      var r := OriginalStep(dom, windowsize, s);
      StepSafe(dom, windowsize, s, all, false);
      if |s.i| > 0 {
        StepCounts(dom, windowsize, s, all);
      }
      if r.Running? {
        RunSafe(dom, windowsize, r.s, all, n - 1);
      }
    }
  }

  lemma StepCounts(dom: Dominance, windowsize: nat, s: State, all: multiset<Point>)
    requires StrictOrder(dom) && Safe(dom, s, all) && |s.i| > 0
    ensures var r := OriginalStep(dom, windowsize, s);
            if r.Finished? then |r.s.i| == 0 && |r.s.t| == 0 else |r.s.i| > 0
  {
    hide Safe, StrictOrder, Check;
    PropagatedSafe(dom, s, all);
    ReadSafe(dom, windowsize, Propagated(s), all);
    SafeWindow(dom, ReadOne(dom, windowsize, Propagated(s)), all);
  }

  /** When OriginalBNL returns, its output is the skyline. */
  lemma ReturnsSkyline(dom: Dominance, windowsize: nat, input: seq<Tuple>, n: nat)
    requires StrictOrder(dom)
    requires Iterate(dom, windowsize, State([], input, [], [], 0, 0), n).Finished?
    ensures IsSkyline(Bag(Output(Iterate(dom, windowsize, State([], input, [], [], 0, 0), n).s)), Bag(input), dom)
  {
    hide Safe, Bag, IsSkyline, StrictOrder, Iterate;
    var s := State([], input, [], [], 0, 0);
    StartSafe(dom, input);
    RunSafe(dom, windowsize, s, Bag(input), n);
    SafeEnd(dom, Iterate(dom, windowsize, s, n).s, Bag(input));
  }

  // ---- Passes that reproduce themselves ----

  /** The input as a pass that sets everything aside stamps it. */
  ghost function Stamped(i: seq<Tuple>): (r: seq<Tuple>)
    ensures |r| == |i|
  {
    seq(|i|, k requires 0 <= k < |i| => Tuple(i[k].p, k))
  }

  /** The pass has read k of the tuples i and put all of them aside. */
  ghost function Midway(w: seq<Tuple>, i: seq<Tuple>, o: seq<Tuple>, k: nat): State
    requires k <= |i|
  {
    State(w, i[k..], Stamped(i)[..k], o, k, k)
  }

  /** A pass that starts like this ends like it started: the window is full, none of its
      tuples is emitted before the pass ends, and nothing that is read changes it. */
  ghost predicate Stuck(dom: Dominance, windowsize: nat, s: State) {
    && |s.i| > 0 && |s.t| == 0 && s.tsIn == 0 && s.tsOut == 0
    && |s.w| >= windowsize
    && (forall q :: q in s.w ==> q.ts >= |s.i|)
    && (forall q, x :: q in s.w && x in s.i ==> Incomparable(dom, q.p, x.p))
  }

  lemma {:induction false} CheckNone(dom: Dominance, w: seq<Tuple>, p: Point, k: nat)
    requires k <= |w| && forall q :: q in w ==> Incomparable(dom, q.p, p)
    ensures Check(dom, w, p, k) == (true, w)
    decreases |w| - k
  {
    if k < |w| {
      assert w[k] in w;
      CheckNone(dom, w, p, k + 1);
    }
  }

  lemma StartMidway(s: State)
    requires |s.t| == 0 && s.tsIn == 0 && s.tsOut == 0
    ensures Midway(s.w, s.i, s.o, 0) == s
  {
    assert s.i[0..] == s.i;
  }

  lemma StuckStep(dom: Dominance, windowsize: nat, s: State, k: nat)
    requires Stuck(dom, windowsize, s) && k < |s.i|
    ensures OriginalStep(dom, windowsize, Midway(s.w, s.i, s.o, k))
         == if k + 1 < |s.i| then Running(Midway(s.w, s.i, s.o, k + 1))
            else Running(s.(i := Stamped(s.i)))
  {
    var m := Midway(s.w, s.i, s.o, k);
    forall j | 0 <= j < |s.w|
      ensures s.w[j].ts != k
    {
      assert s.w[j] in s.w;
    }
    EmitNone(s.w, k);
    assert s.o + [] == s.o;
    assert Propagated(m) == m;
    assert m.i[0] == s.i[k] && s.i[k] in s.i;
    CheckNone(dom, s.w, s.i[k].p, 0);
    assert m.i[1..] == s.i[k + 1..];
    assert m.t + [Tuple(s.i[k].p, k)] == Stamped(s.i)[..k + 1];
    if k + 1 == |s.i| {
      assert Stamped(s.i)[..k + 1] == Stamped(s.i);
    }
  }

  lemma StuckAgain(dom: Dominance, windowsize: nat, s: State)
    requires Stuck(dom, windowsize, s)
    ensures Stuck(dom, windowsize, s.(i := Stamped(s.i)))
    ensures Stamped(Stamped(s.i)) == Stamped(s.i)
  {
    forall q, x | q in s.w && x in Stamped(s.i)
      ensures Incomparable(dom, q.p, x.p)
    {
      var k :| 0 <= k < |s.i| && Stamped(s.i)[k] == x;
      assert s.i[k] in s.i;
    }
  }

  /** From a stuck pass start the loop never ends. */
  lemma {:induction false} StuckForever(dom: Dominance, windowsize: nat, s: State, k: nat, n: nat)
    requires Stuck(dom, windowsize, s) && k < |s.i|
    ensures Iterate(dom, windowsize, Midway(s.w, s.i, s.o, k), n).Running?
    decreases n
  {
    hide OriginalStep, Stuck, Stamped, Midway;
    if n > 0 {
      var m := Midway(s.w, s.i, s.o, k);
      StuckStep(dom, windowsize, s, k);
      if k + 1 < |s.i| {
        IterateOne(dom, windowsize, m, Midway(s.w, s.i, s.o, k + 1), n);
        StuckForever(dom, windowsize, s, k + 1, n - 1);
      } else {
        var s' := s.(i := Stamped(s.i));
        IterateOne(dom, windowsize, m, s', n);
        StuckAgain(dom, windowsize, s);
        StartMidway(s');
        StuckForever(dom, windowsize, s', 0, n - 1);
      }
    }
  }

  lemma StuckNeverReturns(dom: Dominance, windowsize: nat, s: State)
    requires Stuck(dom, windowsize, s)
    ensures !Returns(dom, windowsize, s)
  {
    forall n: nat
      ensures Iterate(dom, windowsize, s, n).Running?
    {
      assert Midway(s.w, s.i, s.o, 0) == s;
      StuckForever(dom, windowsize, s, 0, n);
    }
  }

  /** One whole pass from a stuck start gives that start back. */
  lemma {:induction false} StuckPass(dom: Dominance, windowsize: nat, s: State, k: nat)
    requires Stuck(dom, windowsize, s) && k <= |s.i|
    ensures k < |s.i| ==> Iterate(dom, windowsize, s, k) == Running(Midway(s.w, s.i, s.o, k))
    ensures k == |s.i| ==> Iterate(dom, windowsize, s, k) == Running(s.(i := Stamped(s.i)))
  {
    hide OriginalStep, Stamped, Midway;
    if k == 0 {
      StartMidway(s);
    } else {
      StuckPass(dom, windowsize, s, k - 1);
      StuckStep(dom, windowsize, s, k - 1);
      IterateAdd(dom, windowsize, s, k - 1, 1);
      var m := Midway(s.w, s.i, s.o, k - 1);
      IterateOne(dom, windowsize, m, OriginalStep(dom, windowsize, m).s, 1);
    }
  }

  // ---- Every other pass makes progress ----

  ghost predicate PassStart(windowsize: nat, s: State) {
    |s.i| > 0 && |s.t| == 0 && s.tsIn == 0 && s.tsOut == 0 && |s.w| <= windowsize
  }

  /** A tuple has been dropped or output, or the window has gained one. */
  ghost predicate Ahead(s0: State, s: State) {
    LiveCount(s) < LiveCount(s0) || (LiveCount(s) == LiveCount(s0) && |s.w| > |s0.w|)
  }

  /** Everything the pass has read so far went to T and left the window as it was. */
  ghost predicate SetAside(dom: Dominance, windowsize: nat, s0: State, k: nat)
    requires k <= |s0.i|
  {
    && (k > 0 ==> |s0.w| >= windowsize)
    && (forall q :: q in s0.w ==> q.ts >= k)
    && (forall q, j :: q in s0.w && 0 <= j < k ==> Incomparable(dom, q.p, s0.i[j].p))
  }

  ghost predicate Reading(dom: Dominance, windowsize: nat, s0: State, k: nat, s: State)
    requires k <= |s0.i|
  {
    && |s.i| == |s0.i| - k && s.tsIn == k && s.tsOut == |s.t| && |s.w| <= windowsize
    && (Ahead(s0, s) || (SetAside(dom, windowsize, s0, k) && s == Midway(s0.w, s0.i, s0.o, k)))
  }

  /** What one read of OriginalBNL does, up to the end of the pass. */
  ghost function ReadNext(dom: Dominance, windowsize: nat, s: State): State
    requires |s.i| > 0
  {
    ReadOne(dom, windowsize, Propagated(s))
  }

  lemma ReadProgress(dom: Dominance, windowsize: nat, s: State)
    requires |s.i| > 0 && s.tsOut == |s.t| && |s.w| <= windowsize
    ensures var s' := ReadNext(dom, windowsize, s);
            && |s'.i| == |s.i| - 1 && s'.tsIn == s.tsIn + 1 && s'.tsOut == |s'.t| && |s'.w| <= windowsize
            && (|| Ahead(s, s')
                || (&& s' == State(s.w, s.i[1..], s.t + [Tuple(s.i[0].p, s.tsOut)], s.o, s.tsIn + 1, s.tsOut + 1)
                    && |s.w| >= windowsize
                    && (forall q :: q in s.w ==> q.ts != s.tsIn && Incomparable(dom, q.p, s.i[0].p))))
  {
    hide Bag, Check, Kept, Emitted;
    PropagateParts(s.w, s.tsIn);
    var s1 := Propagated(s);
    CheckFacts(dom, s1.w, s.i[0].p, 0);
    if |Emitted(s.w, s.tsIn)| == 0 {
      assert Emitted(s.w, s.tsIn) == [];
      assert s1 == s;
    }
  }

  lemma ReadingStep(dom: Dominance, windowsize: nat, s0: State, k: nat, s: State)
    requires PassStart(windowsize, s0) && k < |s0.i| && Reading(dom, windowsize, s0, k, s)
    ensures Reading(dom, windowsize, s0, k + 1, ReadNext(dom, windowsize, s))
  {
    hide ReadNext, Incomparable;
    ReadProgress(dom, windowsize, s);
    if !Ahead(s0, s) {
      assert s0.i[k..][0] == s0.i[k] && s0.i[k..][1..] == s0.i[k + 1..];
      assert Stamped(s0.i)[..k] + [Tuple(s0.i[k].p, k)] == Stamped(s0.i)[..k + 1];
    }
  }

  lemma {:induction false} ReadingAfter(dom: Dominance, windowsize: nat, s0: State, k: nat) returns (s: State)
    requires PassStart(windowsize, s0) && k < |s0.i|
    ensures Iterate(dom, windowsize, s0, k) == Running(s) && Reading(dom, windowsize, s0, k, s)
  {
    hide ReadOne, Propagated, SetAside, Ahead;
    if k == 0 {
      s := s0;
      StartMidway(s0);
      SetAsideNone(dom, windowsize, s0);
    } else {
      var s' := ReadingAfter(dom, windowsize, s0, k - 1);
      ReadingStep(dom, windowsize, s0, k - 1, s');
      s := ReadNext(dom, windowsize, s');
      IterateAdd(dom, windowsize, s0, k - 1, 1);
      IterateOne(dom, windowsize, s', s, 1);
    }
  }

  lemma SetAsideNone(dom: Dominance, windowsize: nat, s0: State)
    ensures SetAside(dom, windowsize, s0, 0)
  {
  }

  /** A pass that does not start stuck ends the loop or leads to a better pass start. */
  lemma PassProgress(dom: Dominance, windowsize: nat, s0: State)
    requires PassStart(windowsize, s0) && !Stuck(dom, windowsize, s0)
    ensures var r := Iterate(dom, windowsize, s0, |s0.i|);
            r.Finished? || (PassStart(windowsize, r.s) && Ahead(s0, r.s))
  {
    var n := |s0.i|;
    var s := ReadingAfter(dom, windowsize, s0, n - 1);
    ReadingStep(dom, windowsize, s0, n - 1, s);
    IterateAdd(dom, windowsize, s0, n - 1, 1);
    PassEnd(dom, windowsize, s0, s);
  }

  lemma PassEnd(dom: Dominance, windowsize: nat, s0: State, s: State)
    requires PassStart(windowsize, s0) && !Stuck(dom, windowsize, s0)
    requires |s.i| == 1 && Reading(dom, windowsize, s0, |s0.i|, ReadNext(dom, windowsize, s))
    ensures var r := Iterate(dom, windowsize, s, 1);
            r.Finished? || (PassStart(windowsize, r.s) && Ahead(s0, r.s))
  {
    hide ReadOne, Propagated, Incomparable;
    var s1 := ReadNext(dom, windowsize, s);
    assert !SetAside(dom, windowsize, s0, |s0.i|) by {
      if SetAside(dom, windowsize, s0, |s0.i|) {
        SetAsideStuck(dom, windowsize, s0);
      }
    }
    assert OriginalStep(dom, windowsize, s) == if s1.tsOut == 0 then Finished(s1) else Running(Flip(s1));
    if s1.tsOut > 0 {
      IterateOne(dom, windowsize, s, Flip(s1), 1);
    }
  }

  lemma SetAsideStuck(dom: Dominance, windowsize: nat, s0: State)
    requires PassStart(windowsize, s0) && SetAside(dom, windowsize, s0, |s0.i|)
    ensures Stuck(dom, windowsize, s0)
  {
    forall q, x | q in s0.w && x in s0.i
      ensures Incomparable(dom, q.p, x.p)
    {
      var j :| 0 <= j < |s0.i| && s0.i[j] == x;
    }
  }

  /** The loop is, after n iterations, at the start of a pass that reproduces itself. */
  ghost predicate StuckAfter(dom: Dominance, windowsize: nat, s: State, n: nat) {
    && Iterate(dom, windowsize, s, n).Running?
    && Stuck(dom, windowsize, Iterate(dom, windowsize, s, n).s)
  }

  lemma {:induction false} ReturnsIfNeverStuck(dom: Dominance, windowsize: nat, s: State)
    requires PassStart(windowsize, s)
    requires forall n: nat :: !StuckAfter(dom, windowsize, s, n)
    ensures Returns(dom, windowsize, s)
    decreases LiveCount(s), windowsize - |s.w|
  {
    hide OriginalStep, Stuck;
    assert !StuckAfter(dom, windowsize, s, 0);
    PassProgress(dom, windowsize, s);
    var r := Iterate(dom, windowsize, s, |s.i|);
    if r.Running? {
      forall n: nat
        ensures !StuckAfter(dom, windowsize, r.s, n)
      {
        IterateAdd(dom, windowsize, s, |s.i|, n);
        assert !StuckAfter(dom, windowsize, s, |s.i| + n);
      }
      ReturnsIfNeverStuck(dom, windowsize, r.s);
      var n: nat :| Iterate(dom, windowsize, r.s, n).Finished?;
      IterateAdd(dom, windowsize, s, |s.i|, n);
      assert Iterate(dom, windowsize, s, |s.i| + n).Finished?;
    }
  }

  /** OriginalBNL returns on exactly those inputs on which no pass starts stuck. */
  lemma ReturnsExactly(dom: Dominance, windowsize: nat, s: State)
    requires PassStart(windowsize, s)
    ensures Returns(dom, windowsize, s) <==> forall n: nat :: !StuckAfter(dom, windowsize, s, n)
  {
    if forall n: nat :: !StuckAfter(dom, windowsize, s, n) {
      ReturnsIfNeverStuck(dom, windowsize, s);
    } else {
      var n: nat :| StuckAfter(dom, windowsize, s, n);
      ReachedStuck(dom, windowsize, s, n);
    }
  }

  lemma ReachedStuck(dom: Dominance, windowsize: nat, s: State, n: nat)
    requires StuckAfter(dom, windowsize, s, n)
    ensures !Returns(dom, windowsize, s)
  {
    hide OriginalStep, Stuck;
    var s' := Iterate(dom, windowsize, s, n).s;
    StuckNeverReturns(dom, windowsize, s');
    if m: nat :| Iterate(dom, windowsize, s, m).Finished? {
      FinishedSame(dom, windowsize, s, m, m + n);
      IterateAdd(dom, windowsize, s, n, m);
      assert false;
    }
  }

  // ---- Small skylines ----

  /** In a stuck state every tuple of the window is in the skyline. */
  lemma StuckWindow(dom: Dominance, windowsize: nat, s: State, all: multiset<Point>, q: Tuple)
    requires StrictOrder(dom) && Safe(dom, s, all) && Stuck(dom, windowsize, s) && q in s.w
    ensures Undominated(all, dom, q.p)
  {
    hide Bag;
    BagHas(s.w, q);
    forall y | y in all
      ensures !dom(y, q.p)
    {
      if dom(y, q.p) {
        var m := UndominatedAbove(all, dom, y);
        assert dom(m, q.p) && m in Live(s);
        StuckApart(dom, windowsize, s, all, q, m);
      }
    }
  }

  lemma StuckApart(dom: Dominance, windowsize: nat, s: State, all: multiset<Point>, q: Tuple, m: Point)
    requires Safe(dom, s, all) && Stuck(dom, windowsize, s) && q in s.w && m in Live(s)
    ensures Incomparable(dom, q.p, m)
  {
    hide Bag, Accounted;
    BagHas(s.w, q);
    if m in Bag(s.o) {
      assert Incomparable(dom, m, q.p);
    } else {
      BagMember(s.w, m);
      BagMember(s.i, m);
      BagMember(s.t, m);
    }
  }

  /** And some tuple of the skyline is still to be read. */
  lemma StuckInput(dom: Dominance, windowsize: nat, s: State, all: multiset<Point>) returns (m: Point)
    requires StrictOrder(dom) && Safe(dom, s, all) && Stuck(dom, windowsize, s)
    ensures m in Bag(s.i) && Undominated(all, dom, m)
  {
    hide Bag;
    var x := s.i[0];
    BagHas(s.i, x);
    m := UndominatedAbove(all, dom, x.p);
    assert m in Live(s);
    if m != x.p {
      assert x.p in Live(s) && !Incomparable(dom, m, x.p);
      hide Accounted, StrictOrder, Undominated;
      assert m !in Bag(s.o);
      BagMember(s.w, m);
      BagMember(s.t, m);
    }
  }

  lemma StuckSkyline(dom: Dominance, windowsize: nat, s: State, all: multiset<Point>, r: multiset<Point>)
    requires StrictOrder(dom) && Safe(dom, s, all) && Stuck(dom, windowsize, s) && IsSkyline(r, all, dom)
    ensures |r| > windowsize
  {
    var w := Bag(s.w);
    var m := StuckInput(dom, windowsize, s, all);
    assert |w| == |s.w|;
    hide Bag, Stuck;
    forall y
      ensures w[y] + multiset{m}[y] <= r[y]
    {
      if y in w {
        BagMember(s.w, y);
        var q :| q in s.w && q.p == y;
        StuckWindow(dom, windowsize, s, all, q);
      }
      assert w[y] + Bag(s.i)[y] <= Live(s)[y] <= all[y];
    }
    assert r == w + multiset{m} + (r - (w + multiset{m}));
  }

  /** A condition on the input alone: OriginalBNL returns whenever the whole skyline,
      duplicates included, fits the window. */
  lemma SmallSkylineReturns(dom: Dominance, windowsize: nat, input: seq<Tuple>, r: multiset<Point>)
    requires StrictOrder(dom) && IsSkyline(r, Bag(input), dom) && |r| <= windowsize
    ensures Returns(dom, windowsize, State([], input, [], [], 0, 0))
  {
    hide OriginalStep, Safe, Bag, IsSkyline, Stuck, StrictOrder;
    var s := State([], input, [], [], 0, 0);
    if |input| == 0 {
      EmptyStops(dom, windowsize, s);
      assert Iterate(dom, windowsize, s, 1).Finished?;
    } else {
      StartSafe(dom, input);
      forall n: nat
        ensures !StuckAfter(dom, windowsize, s, n)
      {
        if StuckAfter(dom, windowsize, s, n) {
          RunSafe(dom, windowsize, s, Bag(input), n);
          StuckSkyline(dom, windowsize, Iterate(dom, windowsize, s, n).s, Bag(input), r);
        }
      }
      ReturnsIfNeverStuck(dom, windowsize, s);
    }
  }
}
