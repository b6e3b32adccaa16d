/** The data set that thesis/bnl/Program.cs runs both algorithms on (lines 30-72), for every
    window size and every number of tuples in the middle.
 */
module Dataset {
  import opened Skyline
  import opened OriginalBnl

  /** The order the program uses (lines 35-38): every c dominates every a. */
  predicate Dominates(p: Point, q: Point) {
    Named(p, 'c') && Named(q, 'a')
  }

  predicate Named(p: Point, letter: char) {
    |p.id| > 0 && p.id[0] == letter
  }

  /** The order it was written for (lines 30-33). */
  predicate DominatesByValue(p: Point, q: Point) {
    p.d1 <= q.d1 && p.d2 <= q.d2 && (p.d1 < q.d1 || p.d2 < q.d2)
  }

  lemma BothAreOrders()
    ensures StrictOrder(Dominates) && StrictOrder(DominatesByValue)
  {
  }

  function Decimal(n: nat): string {
    var last := ['0' + (n % 10) as char];
    if n < 10 then last else Decimal(n / 10) + last
  }

  function Name(letter: char, k: nat): Tuple {
    Tuple(Point([letter] + Decimal(k), 0, 0), 0)
  }

  ghost function Group(letter: char, n: nat): (r: seq<Tuple>)
    ensures |r| == n
  {
    seq(n, k requires 0 <= k < n => Name(letter, k + 1))
  }

  predicate IsDigit(c: char) {
    '0' <= c <= '9'
  }

  /** What a string of decimal digits is worth. */
  function Worth(s: string): int {
    if s == "" then 0 else 10 * Worth(s[..|s| - 1]) + (s[|s| - 1] as int - '0' as int)
  }

  /** The number in decimal digits, without a leading zero. */
  lemma {:induction false} DecimalWorth(n: nat)
    ensures Worth(Decimal(n)) == n && (forall i :: 0 <= i < |Decimal(n)| ==> IsDigit(Decimal(n)[i]))
    ensures |Decimal(n)| > 0 && (Decimal(n)[0] == '0' ==> n == 0)
  {
    var d := Decimal(n);
    var k := |d| - 1;
    assert d[k] == '0' + (n % 10) as char;
    if n < 10 {
      assert d[..k] == "";
    } else {
      DecimalWorth(n / 10);
      assert d[..k] == Decimal(n / 10);
    }
  }

  /** Two names are equal only for the same letter and number. */
  lemma NamesDistinct(letter: char, j: nat, other: char, k: nat)
    ensures Name(letter, j) == Name(other, k) <==> letter == other && j == k
  {
    DecimalWorth(j);
    DecimalWorth(k);
    var a, b := Name(letter, j).p.id, Name(other, k).p.id;
    assert a[0] == letter && a[1..] == Decimal(j) && b[0] == other && b[1..] == Decimal(k);
  }

  method CreateDataset(windowsize: nat, temptuples: nat) returns (i: seq<Tuple>)
    ensures i == Group('a', windowsize) + Group('b', temptuples) + Group('c', windowsize)
  {
    i := [];
    for k := 1 to windowsize + 1
      invariant i == Group('a', k - 1)
    {
      i := i + [Name('a', k)];
    }
    ghost var a := i;
    for k := 1 to temptuples + 1
      invariant i == a + Group('b', k - 1)
    {
      i := i + [Name('b', k)];
    }
    ghost var ab := i;
    for k := 1 to windowsize + 1
      invariant i == ab + Group('c', k - 1)
    {
      i := i + [Name('c', k)];
    }
  }

  // ---- How OriginalBNL runs on it ----

  ghost function Start(w: nat, t: nat): State {
    State([], Group('a', w) + Group('b', t) + Group('c', w), [], [], 0, 0)
  }

  /** The tuples of one group in the window, read after ts tuples were set aside. */
  ghost function Held(letter: char, n: nat, ts: nat): (r: seq<Tuple>)
    ensures |r| == n
  {
    seq(n, k requires 0 <= k < n => Tuple(Name(letter, k + 1).p, ts))
  }

  /** The first k a tuples have filled as much of the window. */
  ghost function Filling(w: nat, t: nat, k: nat): State
    requires k <= w
  {
    State(Held('a', k, 0), Group('a', w)[k..] + Group('b', t) + Group('c', w), [], [], k, 0)
  }

  /** All a tuples hold the window; k of the b tuples are set aside. */
  ghost function SettingAside(w: nat, t: nat, k: nat): State
    requires k <= t
  {
    State(Held('a', w, 0), Group('b', t)[k..] + Group('c', w), Stamped(Group('b', t))[..k], [], w + k, k)
  }

  /** The first c tuple has thrown out all a tuples, and k of the c tuples are in the window. */
  ghost function Replacing(w: nat, t: nat, k: nat): State
    requires k <= w
  {
    State(Held('c', k, t), Group('c', w)[k..], Stamped(Group('b', t)), [], w + t + k, t)
  }

  /** The second pass starts with the window full of c tuples and only b tuples to read. */
  ghost function SecondPass(w: nat, t: nat): State {
    State(Held('c', w, t), Stamped(Group('b', t)), [], [], 0, 0)
  }

  lemma HeldMembers(letter: char, n: nat, ts: nat)
    ensures forall q :: q in Held(letter, n, ts) ==> Named(q.p, letter) && q.ts == ts
  {
  }

  /** A tuple incomparable to the whole window is added while there is room, else set aside. */
  lemma ReadIncomparable(windowsize: nat, s: State)
    requires |s.i| > 0
    requires forall q :: q in s.w ==> q.ts != s.tsIn && Incomparable(Dominates, q.p, s.i[0].p)
    ensures var p := Tuple(s.i[0].p, s.tsOut);
            ReadOne(Dominates, windowsize, Propagated(s))
            == if |s.w| < windowsize then s.(w := s.w + [p], i := s.i[1..], tsIn := s.tsIn + 1)
               else s.(t := s.t + [p], i := s.i[1..], tsIn := s.tsIn + 1, tsOut := s.tsOut + 1)
  {
    hide Dominates;
    forall j | 0 <= j < |s.w|
      ensures s.w[j].ts != s.tsIn
    {
      assert s.w[j] in s.w;
    }
    EmitNone(s.w, s.tsIn);
    assert s.o + [] == s.o;
    assert Propagated(s) == s;
    CheckNone(Dominates, s.w, s.i[0].p, 0);
  }

  lemma {:induction false} CheckAll(w: seq<Tuple>, p: Point)
    requires Named(p, 'c') && forall q :: q in w ==> Named(q.p, 'a')
    ensures Check(Dominates, w, p, 0) == (true, [])
    decreases |w|
  {
    if |w| > 0 {
      assert w[0] in w;
      CheckAll(RemoveAt(w, 0), p);
    }
  }

  /** A tuple that dominates the whole window takes its place. */
  lemma ReadDominating(windowsize: nat, s: State)
    requires windowsize > 0 && |s.i| > 0 && Named(s.i[0].p, 'c')
    requires forall q :: q in s.w ==> q.ts != s.tsIn && Named(q.p, 'a')
    ensures ReadOne(Dominates, windowsize, Propagated(s))
         == s.(w := [Tuple(s.i[0].p, s.tsOut)], i := s.i[1..], tsIn := s.tsIn + 1)
  {
    hide Dominates;
    forall j | 0 <= j < |s.w|
      ensures s.w[j].ts != s.tsIn
    {
      assert s.w[j] in s.w;
    }
    EmitNone(s.w, s.tsIn);
    assert s.o + [] == s.o;
    assert Propagated(s) == s;
    CheckAll(s.w, s.i[0].p);
    assert [] + [Tuple(s.i[0].p, s.tsOut)] == [Tuple(s.i[0].p, s.tsOut)];
  }

  lemma FillStep(w: nat, t: nat, k: nat)
    requires k < w && k + 1 < w + t + w
    ensures OriginalStep(Dominates, w, Filling(w, t, k)) == Running(Filling(w, t, k + 1))
  {
    hide ReadOne, Propagated, Decimal;
    var s := Filling(w, t, k);
    HeldMembers('a', k, 0);
    assert s.i[0] == Name('a', k + 1);
    ReadIncomparable(w, s);
    assert Held('a', k, 0) + [Tuple(Name('a', k + 1).p, 0)] == Held('a', k + 1, 0);
    assert s.i[1..] == Group('a', w)[k + 1..] + Group('b', t) + Group('c', w);
  }

  lemma AsideStep(w: nat, t: nat, k: nat)
    requires k < t && w > 0
    ensures OriginalStep(Dominates, w, SettingAside(w, t, k)) == Running(SettingAside(w, t, k + 1))
  {
    hide ReadOne, Propagated, Decimal;
    var s := SettingAside(w, t, k);
    HeldMembers('a', w, 0);
    assert s.i[0] == Name('b', k + 1);
    ReadIncomparable(w, s);
    var b := Group('b', t);
    assert Stamped(b)[..k] + [Tuple(Name('b', k + 1).p, k)] == Stamped(b)[..k + 1];
    assert s.i[1..] == b[k + 1..] + Group('c', w);
  }

  /** The first c tuple empties the window and goes in. */
  lemma FirstReplaces(w: nat, t: nat)
    requires w > 0
    ensures ReadOne(Dominates, w, Propagated(SettingAside(w, t, t))) == Replacing(w, t, 1)
  {
    hide ReadOne, Propagated, Decimal;
    var s := SettingAside(w, t, t);
    HeldMembers('a', w, 0);
    assert s.i[0] == Name('c', 1);
    ReadDominating(w, s);
    assert s.i[1..] == Group('c', w)[1..];
    assert [] + [Tuple(Name('c', 1).p, t)] == Held('c', 1, t);
    assert Stamped(Group('b', t))[..t] == Stamped(Group('b', t));
  }

  lemma NextJoins(w: nat, t: nat, k: nat)
    requires 0 < k < w
    ensures ReadOne(Dominates, w, Propagated(Replacing(w, t, k))) == Replacing(w, t, k + 1)
  {
    hide ReadOne, Propagated, Decimal;
    var s := Replacing(w, t, k);
    HeldMembers('c', k, t);
    assert s.i[0] == Name('c', k + 1);
    ReadIncomparable(w, s);
    assert Held('c', k, t) + [Tuple(Name('c', k + 1).p, t)] == Held('c', k + 1, t);
  }

  lemma {:induction false} Fill(w: nat, t: nat, k: nat)
    requires w > 0 && k <= w
    ensures Iterate(Dominates, w, Start(w, t), k) == Running(Filling(w, t, k))
  {
    hide OriginalStep, Filling, Start;
    if k == 0 {
      FillStart(w, t);
    } else {
      Fill(w, t, k - 1);
      IterateAdd(Dominates, w, Start(w, t), k - 1, 1);
      FillStep(w, t, k - 1);
      IterateOne(Dominates, w, Filling(w, t, k - 1), Filling(w, t, k), 1);
    }
  }

  lemma FillStart(w: nat, t: nat)
    ensures Start(w, t) == Filling(w, t, 0)
  {
    assert Group('a', w)[0..] == Group('a', w);
  }

  lemma FilledAside(w: nat, t: nat)
    ensures Filling(w, t, w) == SettingAside(w, t, 0)
  {
    assert Group('b', t)[0..] == Group('b', t);
  }

  lemma {:induction false} Aside(w: nat, t: nat, k: nat)
    requires w > 0 && k <= t
    ensures Iterate(Dominates, w, Start(w, t), w + k) == Running(SettingAside(w, t, k))
  {
    hide OriginalStep, SettingAside, Start;
    if k == 0 {
      Fill(w, t, w);
      FilledAside(w, t);
    } else {
      Aside(w, t, k - 1);
      IterateAdd(Dominates, w, Start(w, t), w + k - 1, 1);
      AsideStep(w, t, k - 1);
      IterateOne(Dominates, w, SettingAside(w, t, k - 1), SettingAside(w, t, k), 1);
    }
  }

  /** The state before the k-th c tuple is read. */
  ghost function BeforeC(w: nat, t: nat, k: nat): State
    requires 0 < k <= w
  {
    if k == 1 then SettingAside(w, t, t) else Replacing(w, t, k - 1)
  }

  lemma ReadC(w: nat, t: nat, k: nat)
    requires 0 < k <= w
    ensures |BeforeC(w, t, k).i| == w - k + 1
    ensures ReadOne(Dominates, w, Propagated(BeforeC(w, t, k))) == Replacing(w, t, k)
  {
    hide ReadOne, Propagated, Dominates;
    if k == 1 {
      FirstReplaces(w, t);
    } else {
      NextJoins(w, t, k - 1);
    }
  }

  lemma {:induction false} Replace(w: nat, t: nat, k: nat)
    requires 0 < k <= w
    ensures Iterate(Dominates, w, Start(w, t), w + t + k - 1) == Running(BeforeC(w, t, k))
  {
    hide ReadOne, Propagated, Dominates, Start, SettingAside;
    Aside(w, t, t);
    if k > 1 {
      Replace(w, t, k - 1);
      ReadC(w, t, k - 1);
      IterateAdd(Dominates, w, Start(w, t), w + t + k - 2, 1);
      assert OriginalStep(Dominates, w, BeforeC(w, t, k - 1)) == Running(BeforeC(w, t, k));
      IterateOne(Dominates, w, BeforeC(w, t, k - 1), BeforeC(w, t, k), 1);
    }
  }

  /** The first pass, of 2w + t reads, leads to a pass that reproduces itself, unless nothing
      was set aside. */
  lemma FirstPass(w: nat, t: nat)
    requires w > 0
    ensures Iterate(Dominates, w, Start(w, t), w + t + w)
         == if t > 0 then Running(SecondPass(w, t)) else Finished(Replacing(w, t, w))
  {
    hide ReadOne, Propagated, Dominates, Start, SettingAside;
    Replace(w, t, w);
    ReadC(w, t, w);
    IterateAdd(Dominates, w, Start(w, t), w + t + w - 1, 1);
    var s := BeforeC(w, t, w);
    var s' := Replacing(w, t, w);
    if t > 0 {
      assert Flip(s') == SecondPass(w, t);
      IterateOne(Dominates, w, s, SecondPass(w, t), 1);
    } else {
      assert OriginalStep(Dominates, w, s) == Finished(s');
    }
  }

  lemma SecondPassStuck(w: nat, t: nat)
    requires t > 0
    ensures Stuck(Dominates, w, SecondPass(w, t))
  {
    HeldMembers('c', w, t);
    forall x | x in Stamped(Group('b', t))
      ensures Named(x.p, 'b')
    {
      var j :| 0 <= j < t && Stamped(Group('b', t))[j] == x;
      assert x.p == Name('b', j + 1).p;
    }
  }

  /** At the end of the second pass everything is as it was at its start: window, queues and
      counters, tuple for tuple. */
  lemma SecondPassRepeats(w: nat, t: nat)
    requires w > 0 && t > 0
    ensures Iterate(Dominates, w, Start(w, t), w + t + w) == Running(SecondPass(w, t))
    ensures Iterate(Dominates, w, Start(w, t), w + t + w + t) == Running(SecondPass(w, t))
  {
    hide OriginalStep, Dominates, Iterate;
    FirstPass(w, t);
    SecondPassStuck(w, t);
    StuckPass(Dominates, w, SecondPass(w, t), t);
    StuckAgain(Dominates, w, SecondPass(w, t));
    assert Stamped(SecondPass(w, t).i) == SecondPass(w, t).i;
    IterateAdd(Dominates, w, Start(w, t), w + t + w, t);
  }

  /** OriginalBNL returns on the data set exactly when no tuple stands in the middle. */
  lemma ReturnsOnDataset(w: nat, t: nat)
    ensures Returns(Dominates, w, Start(w, t)) <==> t == 0
  {
    hide ReadOne, Propagated, Dominates, Iterate;
    if w == 0 {
      if t == 0 {
        EmptyReturns(w);
      } else {
        NoWindowStuck(t);
        StuckNeverReturns(Dominates, 0, Start(0, t));
      }
    } else {
      FirstPass(w, t);
      if t == 0 {
        assert Iterate(Dominates, w, Start(w, t), w + t + w).Finished?;
      } else {
        SecondPassStuck(w, t);
        assert StuckAfter(Dominates, w, Start(w, t), w + t + w);
        ReachedStuck(Dominates, w, Start(w, t), w + t + w);
      }
    }
  }

  lemma EmptyReturns(w: nat)
    ensures Returns(Dominates, w, Start(0, 0))
  {
    assert Iterate(Dominates, w, Start(0, 0), 1).Finished?;
  }

  /** With no room at all, everything is set aside in every pass. */
  lemma NoWindowStuck(t: nat)
    requires t > 0
    ensures Stuck(Dominates, 0, Start(0, t))
  {
  }
}
