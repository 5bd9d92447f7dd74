/**
 How the uint32 picker of loadbalance/roundrobin/weight_picker.go relates to the algorithm on
 integers: they choose alike as long as no increased currentWeight leaves the range of uint32, and
 for weights that are small enough, only that long.
 */
module SmoothWeights32 {
  import opened Prelude
  import opened SmoothWeights

  /** The weights Build reads are uint32 values. */
  ghost predicate Weights32(e: seq<int>, on: seq<bool>) {
    |e| == |on| && forall i :: 0 <= i < |e| ==> 0 <= e[i] < TWO32
  }

  /** The values compared by pick number t of the integer picker. */
  ghost function Compared(e: seq<int>, on: seq<bool>, t: nat): (p: seq<int>)
    requires |e| == |on|
    ensures |p| == |e|
  {
    Added(Exact, After(Exact, e, e, on, t), e, on)
  }

  ghost predicate InRange(e: seq<int>, on: seq<bool>, t: nat)
    requires |e| == |on|
  {
    forall i :: 0 <= i < |e| && on[i] ==> 0 <= Compared(e, on, t)[i] < TWO32
  }

  ghost predicate NoneNegative(e: seq<int>, on: seq<bool>, t: nat)
    requires |e| == |on|
  {
    forall i :: 0 <= i < |e| && on[i] ==> 0 <= Compared(e, on, t)[i]
  }

  /** Pick number t of both pickers, each from Build's state, chooses the same connection. */
  ghost predicate SameChoice(e: seq<int>, on: seq<bool>, t: nat)
    requires |e| == |on|
  {
    Choice(Wrapping, e, e, on, t) == Choice(Exact, e, e, on, t)
  }

  ghost predicate Congruent(r: seq<int>, c: seq<int>) {
    |r| == |c| && forall i :: 0 <= i < |c| ==> r[i] == Wrap32(c[i])
  }

  lemma CongruentAdded(r: seq<int>, c: seq<int>, e: seq<int>, on: seq<bool>)
    requires Congruent(r, c) && |c| == |e| == |on|
    ensures Congruent(Added(Wrapping, r, e, on), Added(Exact, c, e, on))
  {
    forall i | 0 <= i < |c| && on[i]
      ensures Wrap32(r[i] + e[i]) == Wrap32(c[i] + e[i])
    {
      WrapAbsorb(c[i], e[i]);
    }
  }

  lemma CongruentPick(r: seq<int>, c: seq<int>, e: seq<int>, on: seq<bool>)
    requires Congruent(r, c) && |c| == |e| == |on|
    requires PickOnce(Wrapping, r, e, on).1 == PickOnce(Exact, c, e, on).1
    ensures Congruent(PickOnce(Wrapping, r, e, on).0, PickOnce(Exact, c, e, on).0)
  {
    CongruentAdded(r, c, e, on);
    if PickOnce(Exact, c, e, on).1.Some? {
      WrapAbsorb(Added(Exact, c, e, on)[PickOnce(Exact, c, e, on).1.value], -TotalWeight(e, on));
    }
  }

  /** After picks that agreed, the uint32 weights are the integer ones modulo 2^32. */
  lemma {:induction false} StaysCongruent(e: seq<int>, on: seq<bool>, t: nat)
    requires Weights32(e, on)
    requires forall s :: 0 <= s < t ==> SameChoice(e, on, s)
    ensures Congruent(After(Wrapping, e, e, on, t), After(Exact, e, e, on, t))
  {
    if t > 0 {
      StaysCongruent(e, on, t - 1);
      assert SameChoice(e, on, t - 1);
      CongruentPick(After(Wrapping, e, e, on, t - 1), After(Exact, e, e, on, t - 1), e, on);
    }
  }

  lemma {:induction false} SameLeader(p: seq<int>, q: seq<int>, on: seq<bool>, n: nat)
    requires n <= |p| == |q| == |on|
    requires forall i :: 0 <= i < n && on[i] ==> p[i] == q[i]
    ensures Leader(p, on, n) == Leader(q, on, n)
  {
    if n > 0 {
      SameLeader(p, q, on, n - 1);
    }
  }

  lemma InRangeAgrees(e: seq<int>, on: seq<bool>, t: nat)
    requires Weights32(e, on) && InRange(e, on, t)
    requires Congruent(After(Wrapping, e, e, on, t), After(Exact, e, e, on, t))
    ensures SameChoice(e, on, t)
  {
    var r := After(Wrapping, e, e, on, t);
    CongruentAdded(r, After(Exact, e, e, on, t), e, on);
    SameLeader(Added(Wrapping, r, e, on), Compared(e, on, t), on, |e|);
  }

  lemma {:induction false} InRangePrefixAgrees(e: seq<int>, on: seq<bool>, t: nat)
    requires Weights32(e, on)
    requires forall s :: 0 <= s < t ==> InRange(e, on, s)
    ensures forall s :: 0 <= s < t ==> SameChoice(e, on, s)
  {
    hide *;
    if t > 0 {
      InRangePrefixAgrees(e, on, t - 1);
      StaysCongruent(e, on, t - 1);
      InRangeAgrees(e, on, t - 1);
    }
  }

  /** While every compared integer stays within uint32, the wrapping picker makes the integer picker's
      choices, and its state is the integer state modulo 2^32. */
  lemma WrappingRefinesExact(e: seq<int>, on: seq<bool>, t: nat)
    requires Weights32(e, on)
    requires forall s :: 0 <= s < t ==> InRange(e, on, s)
    ensures forall s :: 0 <= s < t ==> SameChoice(e, on, s)
    ensures Congruent(After(Wrapping, e, e, on, t), After(Exact, e, e, on, t))
  {
    InRangePrefixAgrees(e, on, t);
    StaysCongruent(e, on, t);
  }

  /** n+1 times the total weight, for n accepted connections. */
  ghost function Ceiling(e: seq<int>, on: seq<bool>): int
    requires |e| == |on|
  {
    (Selected(on, |e|) + 1) * TotalWeight(e, on)
  }

  /** Every compared value lies strictly between -W and (n+1)*W. */
  lemma ComparedBounds(e: seq<int>, on: seq<bool>, t: nat, i: nat)
    requires Fleet(e, on) && i < |e| && on[i]
    ensures -TotalWeight(e, on) < Compared(e, on, t)[i] <= Ceiling(e, on)
  {
    var w, c, n := TotalWeight(e, on), After(Exact, e, e, on, t), |e|;
    Balanced(e, on, t);
    SumOnAtLeast(c, on, n, -w, i);
    WeightAtMostTotal(e, on, n, i);
    BoundArithmetic(Selected(on, n), w, c[i]);
  }

  lemma BoundArithmetic(n: nat, w: int, c: int)
    requires w >= c + (n - 1) * -w
    ensures c <= n * w && (n + 1) * w == n * w + w
  {
    assert (n - 1) * -w == w - n * w;
  }

  /** The weights leave enough room above them: (n+2)*W <= 2^32 for n accepted connections. */
  ghost predicate Roomy(e: seq<int>, on: seq<bool>)
    requires |e| == |on|
  {
    Ceiling(e, on) + TotalWeight(e, on) <= TWO32
  }

  /** A negative integer compares, once wrapped, above everything else: pick t goes wrong. */
  lemma NegativeMisleads(e: seq<int>, on: seq<bool>, t: nat)
    requires Weights32(e, on) && Fleet(e, on) && Roomy(e, on)
    requires forall s :: 0 <= s < t ==> SameChoice(e, on, s)
    requires !NoneNegative(e, on, t)
    ensures !SameChoice(e, on, t)
  {
    var w, n := TotalWeight(e, on), |e|;
    var r, c := After(Wrapping, e, e, on, t), After(Exact, e, e, on, t);
    var p, q := Compared(e, on, t), Added(Wrapping, r, e, on);
    StaysCongruent(e, on, t);
    CongruentAdded(r, c, e, on);
    var i :| 0 <= i < n && on[i] && p[i] < 0;
    ComparedBounds(e, on, t, i);
    Balanced(e, on, t);
    PickKeepsBalance(c, e, on);
    var k := Leader(p, on, n).value;
    ComparedBounds(e, on, t, k);
    NotLeader(p, q, on, n, w, k, i);
  }

  lemma NotLeader(p: seq<int>, q: seq<int>, on: seq<bool>, n: nat, w: int, k: nat, i: nat)
    requires n <= |p| == |q| == |on| && k < n && i < n && on[i] && Congruent(q, p)
    requires -w < p[i] < 0 < p[k] <= TWO32 - w
    ensures Leader(q, on, n) != Some(k)
  {
    assert q[k] < q[i];
    LeaderIsFirstMax(q, on, n);
  }

  /** Exactly when the two pickers agree, for weights with (n+2)*W <= 2^32: on a prefix of the run the
      choices are the same if and only if no compared integer of that prefix is negative. */
  lemma {:induction false} AgreeIffNoneNegative(e: seq<int>, on: seq<bool>, t: nat)
    requires Weights32(e, on) && Fleet(e, on) && Roomy(e, on)
    ensures (forall s :: 0 <= s < t ==> SameChoice(e, on, s)) <==> (forall s :: 0 <= s < t ==> NoneNegative(e, on, s))
  {
    if t > 0 {
      AgreeIffNoneNegative(e, on, t - 1);
      if forall s :: 0 <= s < t ==> NoneNegative(e, on, s) {
        forall s | 0 <= s < t
          ensures InRange(e, on, s)
        {
          assert NoneNegative(e, on, s);
          forall i | 0 <= i < |e| && on[i]
            ensures Compared(e, on, s)[i] < TWO32
          {
            ComparedBounds(e, on, s, i);
          }
        }
        WrappingRefinesExact(e, on, t);
      } else if forall s :: 0 <= s < t - 1 ==> SameChoice(e, on, s) {
        NegativeMisleads(e, on, t - 1);
        assert !SameChoice(e, on, t - 1);
      }
    }
  }

  // ----- One period decides for ever -----

  lemma {:induction false} RangeRepeats(e: seq<int>, on: seq<bool>, t: nat)
    requires Fleet(e, on)
    requires forall s :: 0 <= s < TotalWeight(e, on) ==> InRange(e, on, s)
    ensures InRange(e, on, t)
    decreases t
  {
    hide After, InRange;
    var w := TotalWeight(e, on);
    if t >= w {
      PositiveTotal(e, on);
      RangeRepeats(e, on, t - w);
      CycleRepeats(e, on, t - w);
      SameStateSameRange(e, on, t - w, t);
    }
  }

  lemma PositiveTotal(e: seq<int>, on: seq<bool>)
    requires Fleet(e, on)
    ensures TotalWeight(e, on) > 0
  {
  }

  lemma SameStateSameRange(e: seq<int>, on: seq<bool>, s: nat, t: nat)
    requires |e| == |on| && After(Exact, e, e, on, s) == After(Exact, e, e, on, t)
    ensures InRange(e, on, s) <==> InRange(e, on, t)
    ensures NoneNegative(e, on, s) <==> NoneNegative(e, on, t)
  {
  }

  lemma {:induction false} SameCount(e: seq<int>, on: seq<bool>, t: nat, i: nat)
    requires |e| == |on| && forall s :: 0 <= s < t ==> SameChoice(e, on, s)
    ensures Count(Wrapping, e, e, on, t, i) == Count(Exact, e, e, on, t, i)
  {
    hide Choice;
    if t > 0 {
      SameCount(e, on, t - 1, i);
      assert SameChoice(e, on, t - 1);
    }
  }

  /** If the first W picks stay within uint32 then the code deals out exact shares for ever: k*W picks
      choose connection i exactly k*e[i] times and end in Build's state. */
  lemma CodeDealsExactShares(e: seq<int>, on: seq<bool>, k: nat, i: nat)
    requires Weights32(e, on) && Fleet(e, on) && i < |e|
    requires forall s :: 0 <= s < TotalWeight(e, on) ==> InRange(e, on, s)
    ensures var t := k * TotalWeight(e, on);
            && 0 <= t
            && After(Wrapping, e, e, on, t) == e
            && Count(Wrapping, e, e, on, t, i) == if on[i] then k * e[i] else 0
  {
    hide After, Count;
    ExactShare(e, on, k, i);
    var t: nat := k * TotalWeight(e, on);
    forall s: nat | s < t
      ensures InRange(e, on, s)
    {
      RangeRepeats(e, on, s);
    }
    WrappingRefinesExact(e, on, t);
    SameCount(e, on, t, i);
    SmallAreWrapped(After(Wrapping, e, e, on, t), e);
  }

  lemma SmallAreWrapped(r: seq<int>, c: seq<int>)
    requires Congruent(r, c) && forall i :: 0 <= i < |c| ==> 0 <= c[i] < TWO32
    ensures r == c
  {
  }

  lemma {:induction false} SignsRepeat(e: seq<int>, on: seq<bool>, t: nat)
    requires Fleet(e, on)
    requires forall s :: 0 <= s < TotalWeight(e, on) ==> NoneNegative(e, on, s)
    ensures NoneNegative(e, on, t)
    decreases t
  {
    hide After, NoneNegative;
    var w := TotalWeight(e, on);
    if t >= w {
      PositiveTotal(e, on);
      SignsRepeat(e, on, t - w);
      CycleRepeats(e, on, t - w);
      SameStateSameRange(e, on, t - w, t);
    }
  }

  /** For weights with room to spare the code follows the algorithm for ever if and only if the
      algorithm's first W picks compare no negative weight. */
  lemma AgreeForEverIff(e: seq<int>, on: seq<bool>)
    requires Weights32(e, on) && Fleet(e, on) && Roomy(e, on)
    ensures (forall t: nat :: SameChoice(e, on, t))
       <==> (forall s: nat :: s < TotalWeight(e, on) ==> NoneNegative(e, on, s))
  {
    hide SameChoice, NoneNegative, Roomy;
    var w := TotalWeight(e, on);
    PositiveTotal(e, on);
    AgreeIffNoneNegative(e, on, w);
    if forall s: nat :: s < w ==> NoneNegative(e, on, s) {
      forall t: nat
        ensures SameChoice(e, on, t)
      {
        forall s: nat | s < t + 1
          ensures NoneNegative(e, on, s)
        {
          SignsRepeat(e, on, s);
        }
        AgreeIffNoneNegative(e, on, t + 1);
      }
    }
  }

  // ----- One or two candidates never leave the range -----

  lemma {:induction false} SumOfTwo(s: seq<int>, on: seq<bool>, n: nat, a: nat, b: nat, u: int)
    requires n <= |s| == |on| && u >= 0
    requires forall i :: 0 <= i < n && on[i] ==> (i == a || i == b) && s[i] <= u
    ensures SumOn(s, on, n) <= (if a < n then u else 0) + (if b < n && a != b then u else 0)
  {
    if n > 0 {
      SumOfTwo(s, on, n - 1, a, b, u);
    }
  }

  lemma {:induction false} TwoStayNonNegative(e: seq<int>, on: seq<bool>, a: nat, b: nat, t: nat)
    requires Fleet(e, on)
    requires forall i :: 0 <= i < |e| && on[i] ==> i == a || i == b
    ensures forall i :: 0 <= i < |e| && on[i] ==> 0 <= After(Exact, e, e, on, t)[i] <= TotalWeight(e, on)
  {
    var n, w, r := |e|, TotalWeight(e, on), After(Exact, e, e, on, t);
    if t > 0 {
      TwoStayNonNegative(e, on, a, b, t - 1);
      Balanced(e, on, t - 1);
      TwoStep(After(Exact, e, e, on, t - 1), e, on, a, b);
    }
    Balanced(e, on, t);
    forall i | 0 <= i < n && on[i]
      ensures r[i] <= w
    {
      SumOnAtLeast(r, on, n, 0, i);
    }
  }

  /** Of two compared values that sum to 2*W the larger is at least W, so charging W leaves no debt. */
  lemma TwoStep(c: seq<int>, e: seq<int>, on: seq<bool>, a: nat, b: nat)
    requires Fleet(e, on) && |c| == |e| && SumOn(c, on, |c|) == TotalWeight(e, on)
    requires forall i :: 0 <= i < |e| && on[i] ==> (i == a || i == b) && 0 <= c[i]
    ensures forall i :: 0 <= i < |e| && on[i] ==> 0 <= PickOnce(Exact, c, e, on).0[i]
  {
    var n, w, p := |e|, TotalWeight(e, on), Added(Exact, c, e, on);
    PickKeepsBalance(c, e, on);
    SumOnAdd(c, e, p, on, n);
    LeaderIsFirstMax(p, on, n);
    var k := Leader(p, on, n).value;
    if p[k] < w {
      SumOfTwo(p, on, n, a, b, w - 1);
      assert false;
    }
  }

  /** With at most two accepted connections and W < 2^31 the code is the algorithm, for ever. */
  lemma TwoCandidatesAgree(e: seq<int>, on: seq<bool>, a: nat, b: nat, t: nat)
    requires Weights32(e, on) && Fleet(e, on) && TotalWeight(e, on) < 0x8000_0000
    requires forall i :: 0 <= i < |e| && on[i] ==> i == a || i == b
    ensures SameChoice(e, on, t)
    ensures Congruent(After(Wrapping, e, e, on, t), After(Exact, e, e, on, t))
  {
    forall s | 0 <= s < t + 1
      ensures InRange(e, on, s)
    {
      TwoStayNonNegative(e, on, a, b, s);
      forall i | 0 <= i < |e| && on[i]
        ensures 0 <= Compared(e, on, s)[i] < TWO32
      {
        WeightAtMostTotal(e, on, |e|, i);
      }
    }
    WrappingRefinesExact(e, on, t + 1);
    assert SameChoice(e, on, t);
    StaysCongruent(e, on, t);
  }

  // ----- The condition fails in practice -----

  /** When no weight reaches a third of the total, the second pick already differs. */
  lemma LightFleetDiverges(e: seq<int>, on: seq<bool>)
    requires Weights32(e, on) && Fleet(e, on) && Roomy(e, on)
    requires forall i :: 0 <= i < |e| && on[i] ==> 3 * e[i] < TotalWeight(e, on)
    ensures SameChoice(e, on, 0) && !SameChoice(e, on, 1)
  {
    BuildCompared(e, on);
    WrappingRefinesExact(e, on, 1);
    assert SameChoice(e, on, 0);
    NegativeMisleads(e, on, 1);
  }

  /** The first pick compares 2*e[i]; the second finds its choice k at 3*e[k] - W. */
  lemma BuildCompared(e: seq<int>, on: seq<bool>)
    requires Weights32(e, on) && Fleet(e, on) && Roomy(e, on)
    requires forall i :: 0 <= i < |e| && on[i] ==> 3 * e[i] < TotalWeight(e, on)
    ensures InRange(e, on, 0) && !NoneNegative(e, on, 1)
  {
    forall i | 0 <= i < |e| && on[i]
      ensures Compared(e, on, 0)[i] < TWO32
    {
      ComparedBounds(e, on, 0, i);
    }
    Balanced(e, on, 0);
    PickKeepsBalance(e, e, on);
    var k := PickOnce(Exact, e, e, on).1.value;
    assert After(Exact, e, e, on, 1) == PickOnce(Exact, After(Exact, e, e, on, 0), e, on).0;
    assert Compared(e, on, 1)[k] == 3 * e[k] - TotalWeight(e, on);
  }

  /** n connections of weight w, all accepted. */
  ghost function Equal(n: nat, w: int): (e: seq<int>)
    ensures |e| == n
  {
    seq(n, i => w)
  }

  lemma {:induction false} EqualTotal(n: nat, w: int, m: nat)
    requires m <= n
    ensures SumOn(Equal(n, w), Everyone(n), m) == Times(m, w)
  {
    if m > 0 {
      EqualTotal(n, w, m - 1);
    }
  }

  /** What equal weights hold after t picks that all went to connection 0. */
  ghost predicate StuckState(n: nat, w: int, t: nat, c: seq<int>) {
    && |c| == n
    && (n > 0 ==> c[0] == Wrap32(Holding(w, Times(n, w), t, t)))
    && forall i :: 1 <= i < n ==> c[i] == Wrap32(Holding(w, Times(n, w), t, 0))
  }

  /** w <= 2^32/4 and n*w < 2^32, so that a period of the algorithm fits. */
  ghost predicate EqualFleet(n: nat, w: int) {
    n >= 4 && w >= 1 && 4 * w <= Times(n, w) < TWO32
  }

  lemma EqualFleetIff(n: nat, w: int)
    requires n >= 4 && w >= 1
    ensures EqualFleet(n, w) <==> n * w < TWO32
  {
    TimesIs(n, w);
    assert 4 * w <= n * w;
  }

  lemma {:induction false} TimesOrder(t: nat, w: int, x: int)
    requires 1 <= w && 4 * w <= x
    ensures 4 * Times(t, w) <= Times(t, x)
    ensures t > 0 ==> w <= Times(t, w) && x <= Times(t, x)
  {
    if t > 0 {
      TimesOrder(t - 1, w, x);
    }
  }

  lemma StuckAdded(n: nat, w: int, t: nat, c: seq<int>)
    requires EqualFleet(n, w) && StuckState(n, w, t, c)
    ensures var p, x := Added(Wrapping, c, Equal(n, w), Everyone(n)), Times(n, w);
            && p[0] == Wrap32(2 * w + Times(t, w) - Times(t, x))
            && forall i :: 1 <= i < n ==> p[i] == Wrap32(2 * w + Times(t, w))
  {
    var x := Times(n, w);
    WrapAbsorb(Holding(w, x, t, t), w);
    WrapAbsorb(Holding(w, x, t, 0), w);
  }

  lemma StuckChoice(n: nat, w: int, t: nat, c: seq<int>)
    requires EqualFleet(n, w) && StuckState(n, w, t, c) && Times(t, Times(n, w)) <= TWO32
    ensures Leader(Added(Wrapping, c, Equal(n, w), Everyone(n)), Everyone(n), n) == Some(0)
  {
    var p, x := Added(Wrapping, c, Equal(n, w), Everyone(n)), Times(n, w);
    StuckAdded(n, w, t, c);
    TimesOrder(t, w, x);
    FrontLeads(w, x, t, Times(t, w), Times(t, x));
    FirstMaxIsLeader(p, Everyone(n), n, 0);
  }

  lemma StuckStep(n: nat, w: int, t: nat, c: seq<int>)
    requires EqualFleet(n, w) && StuckState(n, w, t, c) && Times(t, Times(n, w)) <= TWO32
    ensures var r := PickOnce(Wrapping, c, Equal(n, w), Everyone(n));
            r.1 == Some(0) && StuckState(n, w, t + 1, r.0)
  {
    StuckChoice(n, w, t, c);
    StuckAdded(n, w, t, c);
    EqualTotal(n, w, n);
    WrapAbsorb(2 * w + Times(t, w) - Times(t, Times(n, w)), -Times(n, w));
  }

  /** Connection 0 has wrapped below zero, so it compares above the others. */
  lemma FrontLeads(w: int, x: int, t: nat, granted: int, charged: int)
    requires 1 <= w && 4 * w <= x < TWO32 && 4 * granted <= charged <= TWO32
    requires if t == 0 then granted == charged == 0 else w <= granted && x <= charged
    ensures Wrap32(2 * w + granted) <= Wrap32(2 * w + granted - charged)
  {
  }

  /** n >= 4 equal weights: pick t goes to connection 0 for every t up to 2^32 / (n*w), although the
      algorithm would deal the connections out in turn. */
  lemma {:induction false} EqualWeightsStick(n: nat, w: int, t: nat)
    requires EqualFleet(n, w) && Times(t, Times(n, w)) <= TWO32
    ensures StuckState(n, w, t, After(Wrapping, Equal(n, w), Equal(n, w), Everyone(n), t))
    ensures Choice(Wrapping, Equal(n, w), Equal(n, w), Everyone(n), t) == Some(0)
  {
    var e, on := Equal(n, w), Everyone(n);
    if t > 0 {
      EqualWeightsStick(n, w, t - 1);
      StuckStep(n, w, t - 1, After(Wrapping, e, e, on, t - 1));
    }
    StuckStep(n, w, t, After(Wrapping, e, e, on, t));
  }

  /** Connection 0 has been charged more than 2^32. If its grants make up for the excess it has wrapped
      once and compares below the others; if not it has wrapped twice and still compares above. */
  lemma FrontTrailsIff(w: int, x: int, granted: int, charged: int)
    requires 1 <= w && 4 * w <= x < TWO32
    requires 0 <= 4 * granted <= charged <= TWO32 < charged + x
    ensures var front, others := Wrap32(3 * w + granted - charged - x), Wrap32(3 * w + granted);
            if charged + x - TWO32 <= 3 * w + granted then front < others else front > others
  {
  }

  lemma StuckLetsGo(n: nat, w: int, t: nat, c: seq<int>)
    requires EqualFleet(n, w) && StuckState(n, w, t + 1, c)
    requires Times(t, Times(n, w)) <= TWO32 < Times(t + 1, Times(n, w))
    ensures Leader(Added(Wrapping, c, Equal(n, w), Everyone(n)), Everyone(n), n)
         == Some(if Times(t + 1, Times(n, w)) - TWO32 <= 3 * w + Times(t, w) then 1 else 0)
  {
    var p, x := Added(Wrapping, c, Equal(n, w), Everyone(n)), Times(n, w);
    StuckAdded(n, w, t + 1, c);
    TimesOrder(t, w, x);
    TimesMonotone(0, t, w);
    FrontTrailsIff(w, x, Times(t, w), Times(t, x));
    FirstMaxIsLeader(p, Everyone(n), n, if Times(t + 1, x) - TWO32 <= 3 * w + Times(t, w) then 1 else 0);
  }

  /** The first q+1 picks go to connection 0, where q = 2^32 / (n*w). The next one goes to connection 1
      exactly when the charges exceed 2^32 by no more than connection 0 has been granted, as they do
      whenever (n-3)*(n*w) <= 2^32; otherwise connection 0 has wrapped once more and keeps its place. */
  lemma StickEndsIff(n: nat, w: int)
    requires n >= 4 && w >= 1 && n * w < TWO32
    ensures var q := TWO32 / (n * w);
            && 0 <= q
            && (forall s :: 0 <= s <= q ==> Choice(Wrapping, Equal(n, w), Equal(n, w), Everyone(n), s) == Some(0))
            && Choice(Wrapping, Equal(n, w), Equal(n, w), Everyone(n), q + 1)
               == Some(if (q + 1) * (n * w) - TWO32 <= (q + 3) * w then 1 else 0)
    ensures (n - 3) * (n * w) <= TWO32 ==>
              (TWO32 / (n * w) + 1) * (n * w) - TWO32 <= (TWO32 / (n * w) + 3) * w
  {
    hide After, PickOnce, Leader, StuckState;
    var e, on, x := Equal(n, w), Everyone(n), Times(n, w);
    TimesIs(n, w);
    EqualFleetIff(n, w);
    var q: nat := TWO32 / x;
    QuotientBounds(x, q);
    forall s: nat | s <= q
      ensures Choice(Wrapping, e, e, on, s) == Some(0)
    {
      TimesMonotone(s, q, x);
      EqualWeightsStick(n, w, s);
    }
    EqualWeightsStick(n, w, q);
    AfterStick(n, w, q);
    TimesIs(q, w);
    TimesIs(q + 1, x);
    assert (q + 3) * w == q * w + 3 * w;
    if (n - 3) * x <= TWO32 {
      RoundsEnough(n, w, q);
    }
  }

  lemma AfterStick(n: nat, w: int, q: nat)
    requires EqualFleet(n, w) && Times(q, Times(n, w)) <= TWO32 < Times(q + 1, Times(n, w))
    ensures Choice(Wrapping, Equal(n, w), Equal(n, w), Everyone(n), q + 1)
         == Some(if Times(q + 1, Times(n, w)) - TWO32 <= 3 * w + Times(q, w) then 1 else 0)
  {
    var e, on := Equal(n, w), Everyone(n);
    EqualWeightsStick(n, w, q);
    StuckStep(n, w, q, After(Wrapping, e, e, on, q));
    StuckLetsGo(n, w, q, After(Wrapping, e, e, on, q + 1));
  }

  lemma QuotientBounds(d: int, q: nat)
    requires d > 0 && q == TWO32 / d
    ensures Times(q, d) <= TWO32 < Times(q + 1, d)
  {
    TimesIs(q, d);
    assert TWO32 == d * q + TWO32 % d;
  }

  lemma RoundsEnough(n: nat, w: int, q: nat)
    requires n >= 4 && w >= 1 && Times(q, n * w) <= TWO32 < Times(q + 1, n * w) && (n - 3) * (n * w) <= TWO32
    ensures (q + 1) * (n * w) - TWO32 <= (q + 3) * w
  {
    var d := n * w;
    TimesIs(q, d);
    TimesIs(q + 1, d);
    assert d > 0;
    AtMostQuotient(n - 3, q, d);
    assert (n - 3) * w <= q * w;
    assert (n - 3) * w == n * w - 3 * w;
    assert (q + 1) * d == q * d + d && (q + 3) * w == q * w + 3 * w;
  }

  lemma AtMostQuotient(m: nat, q: nat, d: int)
    requires d > 0 && m * d <= TWO32 < q * d + d
    ensures m <= q
  {
    if m > q {
      TimesIs(m, d);
      TimesIs(q, d);
      TimesMonotone(q + 1, m, d);
      assert false;
    }
  }

  // ----- Equal weights, in full -----

  /** What equal weights hold r picks into a round of the algorithm: those before r have had their turn. */
  ghost function InTurn(n: nat, w: int, r: nat): (c: seq<int>)
    ensures |c| == n
  {
    seq(n, i => Times(r + 1, w) - if i < r then Times(n, w) else 0)
  }

  lemma TurnStep(n: nat, w: int, r: nat)
    requires r < n && w >= 1
    ensures PickOnce(Exact, InTurn(n, w, r), Equal(n, w), Everyone(n))
         == (InTurn(n, w, if r + 1 == n then 0 else r + 1), Some(r))
  {
    var e, on, c := Equal(n, w), Everyone(n), InTurn(n, w, r);
    var p := Added(Exact, c, e, on);
    assert Times(r + 2, w) == Times(r + 1, w) + w && Times(1, w) == w;
    TimesMonotone(1, n, w);
    FirstMaxIsLeader(p, on, n, r);
    EqualTotal(n, w, n);
    var q := PickOnce(Exact, c, e, on).0;
    var goal := InTurn(n, w, if r + 1 == n then 0 else r + 1);
    assert q == p[r := p[r] - Times(n, w)];
    assert forall i :: 0 <= i < n ==> q[i] == goal[i];
    assert q == goal;
  }

  lemma {:induction false} RoundInTurn(n: nat, w: int, k: nat, r: nat)
    requires r < n && w >= 1
    ensures 0 <= Times(k, n) && After(Exact, Equal(n, w), Equal(n, w), Everyone(n), Times(k, n) + r) == InTurn(n, w, r)
    decreases k, r
  {
    hide PickOnce, InTurn;
    TimesMonotone(0, k, n);
    if r > 0 {
      RoundInTurn(n, w, k, r - 1);
      TurnStep(n, w, r - 1);
    } else if k > 0 {
      RoundInTurn(n, w, k - 1, n - 1);
      TurnStep(n, w, n - 1);
      assert Times(k, n) + r - 1 == Times(k - 1, n) + (n - 1);
    } else {
      BuildInTurn(n, w);
    }
  }

  lemma BuildInTurn(n: nat, w: int)
    requires n >= 1
    ensures InTurn(n, w, 0) == Equal(n, w)
  {
    assert Times(1, w) == w;
  }

  /** The algorithm deals equal connections out in turn. */
  lemma EqualInTurn(n: nat, w: int, t: nat)
    requires n >= 1 && w >= 1
    ensures After(Exact, Equal(n, w), Equal(n, w), Everyone(n), t) == InTurn(n, w, t % n)
    ensures Choice(Exact, Equal(n, w), Equal(n, w), Everyone(n), t) == Some(t % n)
  {
    hide PickOnce, InTurn, After;
    TimesIs(t / n, n);
    assert Times(t / n, n) + t % n == t;
    RoundInTurn(n, w, t / n, t % n);
    TurnStep(n, w, t % n);
  }

  lemma FirstRound(n: nat, t: nat)
    requires t < n
    ensures t % n == t
  {
  }

  /** Up to three equal weights never compare a negative value, nor one above (n+1)*w. */
  lemma FewStayInRange(n: nat, w: int, t: nat)
    requires 1 <= n <= 3 && w >= 1
    requires t % n + 2 <= n || (n + 1) * w < TWO32
    requires n * w < TWO32
    ensures InRange(Equal(n, w), Everyone(n), t)
  {
    EqualInTurn(n, w, t);
    FewTimes(w);
  }

  lemma FewTimes(w: int)
    ensures Times(1, w) == w && Times(2, w) == 2 * w && Times(3, w) == 3 * w && Times(4, w) == 4 * w
  {
    TimesIs(1, w);
    TimesIs(2, w);
    TimesIs(3, w);
    TimesIs(4, w);
  }

  /** A single connection is the only choice there is, however its weight wraps. */
  lemma SingleAgrees(w: int, t: nat)
    ensures SameChoice(Equal(1, w), Everyone(1), t)
  {
  }

  /** The last pick of the first round compares (n+1)*w; beyond 2^32 that wraps below the others. */
  lemma TopWraps(n: nat, w: int)
    requires 2 <= n <= 3 && w >= 1 && n * w < TWO32 <= (n + 1) * w
    ensures !SameChoice(Equal(n, w), Everyone(n), n - 1)
  {
    hide InRange, After, PickOnce;
    var e, on := Equal(n, w), Everyone(n);
    forall s: nat | s < n - 1
      ensures InRange(e, on, s)
    {
      FirstRound(n, s);
      FewStayInRange(n, w, s);
    }
    WrappingRefinesExact(e, on, n - 1);
    FirstRound(n, n - 1);
    EqualInTurn(n, w, n - 1);
    TopIsNotChosen(n, w, After(Wrapping, e, e, on, n - 1));
  }

  lemma TopIsNotChosen(n: nat, w: int, r: seq<int>)
    requires 2 <= n <= 3 && w >= 1 && n * w < TWO32 <= (n + 1) * w && Congruent(r, InTurn(n, w, n - 1))
    ensures PickOnce(Wrapping, r, Equal(n, w), Everyone(n)).1 != Some(n - 1)
  {
    var e, on := Equal(n, w), Everyone(n);
    FewTimes(w);
    CongruentAdded(r, InTurn(n, w, n - 1), e, on);
    var q := Added(Wrapping, r, e, on);
    var p := Added(Exact, InTurn(n, w, n - 1), e, on);
    assert p[0] == w;
    assert p[n - 1] == (n + 1) * w;
    WrapsBelow(n, w);
    LeaderIsFirstMax(q, on, n);
  }

  lemma WrapsBelow(n: nat, w: int)
    requires 2 <= n <= 3 && w >= 1 && n * w < TWO32 <= (n + 1) * w
    ensures Wrap32((n + 1) * w) < Wrap32(w)
  {
  }

  /** For equal weights the condition is one that a caller can read off: if the sum of n weights w fits,
      the code follows the algorithm for ever exactly when it has one connection, or two or three of which
      one weight more would still fit. */
  lemma EqualAgreeForEverIff(n: nat, w: int)
    requires n >= 1 && w >= 1 && n * w < TWO32
    ensures (forall t: nat :: SameChoice(Equal(n, w), Everyone(n), t))
       <==> n == 1 || (n <= 3 && (n + 1) * w < TWO32)
  {
    hide SameChoice;
    var e, on := Equal(n, w), Everyone(n);
    if n == 1 {
      forall t: nat ensures SameChoice(e, on, t) {
        SingleAgrees(w, t);
      }
    } else if n <= 3 && (n + 1) * w < TWO32 {
      forall t: nat ensures SameChoice(e, on, t) {
        FewAgree(n, w, t);
      }
    } else if n <= 3 {
      TopWraps(n, w);
    } else {
      ManyDiverge(n, w);
    }
  }

  lemma FewAgree(n: nat, w: int, t: nat)
    requires 1 <= n <= 3 && w >= 1 && (n + 1) * w < TWO32
    ensures SameChoice(Equal(n, w), Everyone(n), t)
  {
    forall s: nat | s < t + 1
      ensures InRange(Equal(n, w), Everyone(n), s)
    {
      FewStayInRange(n, w, s);
    }
    WrappingRefinesExact(Equal(n, w), Everyone(n), t + 1);
    assert t < t + 1;
  }

  lemma ManyDiverge(n: nat, w: int)
    requires n >= 4 && w >= 1 && n * w < TWO32
    ensures !SameChoice(Equal(n, w), Everyone(n), 1)
  {
    hide After, Choice, StuckState, InTurn;
    EqualFleetIff(n, w);
    TimesIs(n, w);
    TimesIs(1, Times(n, w));
    EqualWeightsStick(n, w, 1);
    EqualInTurn(n, w, 1);
    FirstRound(n, 1);
  }

  lemma EqualIsFleet(n: nat, w: int)
    requires n >= 1 && 1 <= w < TWO32
    ensures Weights32(Equal(n, w), Everyone(n)) && Fleet(Equal(n, w), Everyone(n))
  {
    EqualTotal(n, w, n);
    TimesMonotone(1, n, w);
    assert Times(1, w) == w;
  }

  lemma FewNeverNegative(n: nat, w: int, t: nat)
    requires 1 <= n <= 3 && w >= 1
    ensures NoneNegative(Equal(n, w), Everyone(n), t)
  {
    EqualInTurn(n, w, t);
    FewTimes(w);
  }

  /** Without the room that AgreeIffNoneNegative asks for, its claim is false: three weights of 2^30 never
      compare a negative value, and yet the third pick differs. */
  lemma RoomIsNeeded()
    ensures var e, on := Equal(3, 0x4000_0000), Everyone(3);
            && Weights32(e, on) && Fleet(e, on)
            && (forall t: nat :: NoneNegative(e, on, t)) && !SameChoice(e, on, 2)
  {
    hide Weights32, Fleet, NoneNegative, SameChoice, Equal;
    var w := 0x4000_0000;
    EqualIsFleet(3, w);
    TopWraps(3, w);
    forall t: nat ensures NoneNegative(Equal(3, w), Everyone(3), t) {
      FewNeverNegative(3, w, t);
    }
  }
}
