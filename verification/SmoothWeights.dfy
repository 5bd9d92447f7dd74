/**
 The smooth weighted round robin of loadbalance/roundrobin/weight_picker.go as functions on
 values. One definition serves two arithmetics: Exact is the algorithm on integers, Wrapping is
 the code's uint32. Efficient weights and the filter's verdict per connection are held fixed, as
 between two Done callbacks.
 */
module SmoothWeights {
  import opened Prelude

  datatype Arith = Exact | Wrapping

  function Fix(a: Arith, x: int): int {
    if a.Exact? then x else Wrap32(x)
  }

  /** currentWeight of every connection once each accepted one has been increased. */
  function Added(a: Arith, c: seq<int>, e: seq<int>, on: seq<bool>): (p: seq<int>)
    requires |c| == |e| == |on|
    ensures |p| == |c|
  {
    seq(|c|, i requires 0 <= i < |c| => if on[i] then Fix(a, c[i] + e[i]) else c[i])
  }

  /** The scan's candidate after n connections: a later one replaces it only when strictly larger. */
  function Leader(p: seq<int>, on: seq<bool>, n: nat): (r: Option<nat>)
    requires n <= |p| == |on|
    ensures r.Some? ==> r.value < n && on[r.value]
  {
    if n == 0 then None
    else
      var r := Leader(p, on, n - 1);
      if on[n - 1] && (r.None? || p[r.value] < p[n - 1]) then Some(n - 1) else r
  }

  /** The leader is exactly the first index among those with the largest accepted value. */
  ghost predicate IsFirstMax(p: seq<int>, on: seq<bool>, n: nat, k: nat)
    requires n <= |p| == |on|
  {
    && k < n && on[k]
    && (forall i :: 0 <= i < n && on[i] ==> p[i] <= p[k])
    && (forall i :: 0 <= i < k && on[i] ==> p[i] < p[k])
  }

  lemma {:induction false} LeaderIsFirstMax(p: seq<int>, on: seq<bool>, n: nat)
    requires n <= |p| == |on|
    ensures Leader(p, on, n).None? <==> forall i :: 0 <= i < n ==> !on[i]
    ensures Leader(p, on, n).Some? ==> IsFirstMax(p, on, n, Leader(p, on, n).value)
  {
    if n > 0 {
      LeaderIsFirstMax(p, on, n - 1);
    }
  }

  lemma FirstMaxIsLeader(p: seq<int>, on: seq<bool>, n: nat, k: nat)
    requires n <= |p| == |on| && IsFirstMax(p, on, n, k)
    ensures Leader(p, on, n) == Some(k)
  {
    LeaderIsFirstMax(p, on, n);
    assert Leader(p, on, n).Some?;
    var l := Leader(p, on, n).value;
    assert p[l] <= p[k] && p[k] <= p[l];
  }

  ghost function TotalWeight(e: seq<int>, on: seq<bool>): int
    requires |e| == |on|
  {
    SumOn(e, on, |e|)
  }

  /** One call of Pick: the new currentWeights and the chosen connection. */
  ghost function PickOnce(a: Arith, c: seq<int>, e: seq<int>, on: seq<bool>): (r: (seq<int>, Option<nat>))
    requires |c| == |e| == |on|
    ensures |r.0| == |c| && (r.1.Some? ==> r.1.value < |c| && on[r.1.value])
  {
    var p := Added(a, c, e, on);
    match Leader(p, on, |p|)
    case None => (p, None)
    case Some(k) => (p[k := Fix(a, p[k] - TotalWeight(e, on))], Some(k))
  }

  // ----- Runs of consecutive picks -----

  /** currentWeights after t picks that start from c. */
  ghost function After(a: Arith, c: seq<int>, e: seq<int>, on: seq<bool>, t: nat): (r: seq<int>)
    requires |c| == |e| == |on|
    ensures |r| == |c|
  {
    if t == 0 then c else PickOnce(a, After(a, c, e, on, t - 1), e, on).0
  }

  /** The connection chosen by pick number t, counted from 0. */
  ghost function Choice(a: Arith, c: seq<int>, e: seq<int>, on: seq<bool>, t: nat): (r: Option<nat>)
    requires |c| == |e| == |on|
    ensures r.Some? ==> r.value < |c| && on[r.value]
  {
    PickOnce(a, After(a, c, e, on, t), e, on).1
  }

  /** How often connection i is chosen in the first t picks. */
  ghost function Count(a: Arith, c: seq<int>, e: seq<int>, on: seq<bool>, t: nat, i: nat): nat
    requires |c| == |e| == |on|
  {
    if t == 0 then 0
    else Count(a, c, e, on, t - 1, i) + if Choice(a, c, e, on, t - 1) == Some(i) then 1 else 0
  }

  lemma {:induction false} AfterCompose(a: Arith, c: seq<int>, e: seq<int>, on: seq<bool>, s: nat, t: nat)
    requires |c| == |e| == |on|
    ensures After(a, c, e, on, s + t) == After(a, After(a, c, e, on, s), e, on, t)
  {
    hide PickOnce;
    if t > 0 {
      AfterCompose(a, c, e, on, s, t - 1);
      assert s + t - 1 == s + (t - 1);
    }
  }

  // ----- The integer picker from Build's state -----

  /** What Build and the callers provide: non-negative weights, not all accepted ones zero. */
  ghost predicate Fleet(e: seq<int>, on: seq<bool>) {
    && |e| == |on|
    && (forall i :: 0 <= i < |e| ==> 0 <= e[i])
    && TotalWeight(e, on) > 0
  }

  /** A positive sum has a positive selected element. */
  lemma {:induction false} SomePositive(s: seq<int>, on: seq<bool>, n: nat) returns (j: nat)
    requires n <= |s| == |on| && SumOn(s, on, n) > 0
    ensures j < n && on[j] && s[j] > 0
  {
    if on[n - 1] && s[n - 1] > 0 {
      j := n - 1;
    } else {
      j := SomePositive(s, on, n - 1);
    }
  }

  lemma {:induction false} WeightAtMostTotal(e: seq<int>, on: seq<bool>, n: nat, k: nat)
    requires k < n <= |e| == |on| && on[k]
    requires forall i :: 0 <= i < n && on[i] ==> 0 <= e[i]
    ensures e[k] <= SumOn(e, on, n)
  {
    SumOnAtLeast(e, on, n, 0, k);
  }

  /** From a state whose accepted weights sum to W and exceed -W, one integer pick keeps both facts,
      and the chosen connection had a positive weight to give. */
  lemma PickKeepsBalance(c: seq<int>, e: seq<int>, on: seq<bool>)
    requires Fleet(e, on) && |c| == |e|
    requires SumOn(c, on, |c|) == TotalWeight(e, on)
    requires forall i :: 0 <= i < |c| && on[i] ==> c[i] > -TotalWeight(e, on)
    ensures PickOnce(Exact, c, e, on).1.Some?
    ensures var k := PickOnce(Exact, c, e, on).1.value; c[k] + e[k] > 0
    ensures var r := PickOnce(Exact, c, e, on).0;
            && SumOn(r, on, |c|) == TotalWeight(e, on)
            && forall i :: 0 <= i < |c| && on[i] ==> r[i] > -TotalWeight(e, on)
  {
    var n, w := |c|, TotalWeight(e, on);
    var p := Added(Exact, c, e, on);
    SumOnAdd(c, e, p, on, n);
    var j := SomePositive(p, on, n);
    LeaderIsFirstMax(p, on, n);
    var k := Leader(p, on, n).value;
    assert p[k] >= p[j] > 0;
    SumOnUpdate(p, on, n, k, p[k] - w);
  }

  lemma {:induction false} Balanced(e: seq<int>, on: seq<bool>, t: nat)
    requires Fleet(e, on)
    ensures SumOn(After(Exact, e, e, on, t), on, |e|) == TotalWeight(e, on)
    ensures forall i :: 0 <= i < |e| && on[i] ==> After(Exact, e, e, on, t)[i] > -TotalWeight(e, on)
  {
    if t == 0 {
    } else {
      Balanced(e, on, t - 1);
      PickKeepsBalance(After(Exact, e, e, on, t - 1), e, on);
    }
  }

  lemma AtBuild(e: seq<int>, on: seq<bool>, i: nat)
    requires |e| == |on|
    ensures After(Exact, e, e, on, 0) == e && Count(Exact, e, e, on, 0, i) == 0
  {
  }

  /** One pick as seen by connection i. */
  lemma PickAt(e: seq<int>, on: seq<bool>, t: nat, i: nat)
    requires Fleet(e, on) && i < |e|
    ensures var c, picked := After(Exact, e, e, on, t)[i], Choice(Exact, e, e, on, t) == Some(i);
            && After(Exact, e, e, on, t + 1)[i] ==
               (if on[i] then c + e[i] - (if picked then TotalWeight(e, on) else 0) else c)
            && Count(Exact, e, e, on, t + 1, i) == Count(Exact, e, e, on, t, i) + (if picked then 1 else 0)
  {
    Balanced(e, on, t);
    PickKeepsBalance(After(Exact, e, e, on, t), e, on);
  }

  /** A connection the filter rejects is never touched and never chosen. */
  lemma {:induction false} RejectedUntouched(e: seq<int>, on: seq<bool>, t: nat, i: nat)
    requires Fleet(e, on) && i < |e| && !on[i]
    ensures After(Exact, e, e, on, t)[i] == e[i] && Count(Exact, e, e, on, t, i) == 0
  {
    hide After, Count, Choice;
    AtBuild(e, on, i);
    if t > 0 {
      RejectedUntouched(e, on, t - 1, i);
      PickAt(e, on, t - 1, i);
    }
  }

  /** What a connection holds once it has been granted x for each of t picks and charged w for each of
      the m it won. */
  ghost function Holding(x: int, w: int, t: nat, m: nat): int {
    x + Times(t, x) - Times(m, w)
  }

  lemma HoldingValue(x: int, w: int, t: nat, m: nat)
    ensures Holding(x, w, t, m) == x + t * x - w * m
  {
    TimesIs(t, x);
    TimesIs(m, w);
  }

  lemma HoldingStep(x: int, w: int, t: nat, m: nat, picked: bool)
    ensures Holding(x, w, t + 1, if picked then m + 1 else m) == Holding(x, w, t, m) + x - (if picked then w else 0)
  {
  }

  lemma {:induction false} Ledger(e: seq<int>, on: seq<bool>, t: nat, i: nat)
    requires Fleet(e, on) && i < |e| && on[i]
    ensures After(Exact, e, e, on, t)[i] == Holding(e[i], TotalWeight(e, on), t, Count(Exact, e, e, on, t, i))
  {
    hide After, Count, Choice;
    AtBuild(e, on, i);
    if t > 0 {
      Ledger(e, on, t - 1, i);
      PickAt(e, on, t - 1, i);
      HoldingStep(e[i], TotalWeight(e, on), t - 1, Count(Exact, e, e, on, t - 1, i),
                  Choice(Exact, e, e, on, t - 1) == Some(i));
    }
  }

  /** Smoothness at every prefix of the run: no connection runs ahead of its share, nor falls behind
      it, by more than these margins, in which only the accepted connections count. For a single one the
      lower bound is an equality. */
  lemma Smoothness(e: seq<int>, on: seq<bool>, t: nat, i: nat)
    requires Fleet(e, on) && i < |e| && on[i]
    ensures var w, m := TotalWeight(e, on), Count(Exact, e, e, on, t, i);
            && w * m < (t + 1) * e[i] + w
            && w * m >= (t + 1) * e[i] - w - (Selected(on, |e|) - 1) * (w - 1)
  {
    var w, c := TotalWeight(e, on), After(Exact, e, e, on, t);
    Balanced(e, on, t);
    Ledger(e, on, t, i);
    SumOnAtLeast(c, on, |e|, 1 - w, i);
    MarginArithmetic(e[i], w, t, Count(Exact, e, e, on, t, i), Selected(on, |e|), c[i]);
  }

  lemma MarginArithmetic(x: int, w: int, t: nat, m: nat, n: int, c: int)
    requires c == Holding(x, w, t, m) && c > -w && w >= c + (n - 1) * (1 - w)
    ensures w * m < (t + 1) * x + w && w * m >= (t + 1) * x - w - (n - 1) * (w - 1)
  {
    HoldingValue(x, w, t, m);
    assert (t + 1) * x == t * x + x;
    assert (n - 1) * (1 - w) == -((n - 1) * (w - 1));
  }

  /** One pick before the end of a period exactly one connection is owed a pick: its weight is W, the
      weight of every other is 0. */
  lemma OneIsOwed(e: seq<int>, on: seq<bool>) returns (j: nat)
    requires Fleet(e, on)
    ensures j < |e| && on[j] && e[j] >= 1
    ensures forall i :: 0 <= i < |e| && on[i] ==>
      After(Exact, e, e, on, TotalWeight(e, on) - 1)[i] == if i == j then TotalWeight(e, on) else 0
  {
    var w, n := TotalWeight(e, on), |e|;
    var c := After(Exact, e, e, on, w - 1);
    Balanced(e, on, w - 1);
    forall i | 0 <= i < n && on[i]
      ensures 0 <= c[i] && (c[i] > 0 ==> c[i] >= w && e[i] >= 1)
    {
      Ledger(e, on, w - 1, i);
      OwedIsMultiple(w, e[i], Count(Exact, e, e, on, w - 1, i), c[i]);
    }
    j := SomePositive(c, on, n);
    forall i | 0 <= i < n && on[i] && i != j
      ensures c[i] == 0
    {
      OthersAreZero(c, on, n, w, j, i);
    }
    SumOnAtLeast(c, on, n, 0, j);
  }

  lemma OwedIsMultiple(w: int, e: int, m: nat, c: int)
    requires w > 0 && c == Holding(e, w, w - 1, m) && c > -w
    ensures 0 <= c && (c > 0 ==> c >= w && e >= 1)
  {
    HoldingValue(e, w, w - 1, m);
    var owed := e - m;
    assert c == w * owed;
    assert owed >= 0 by {
      if owed < 0 {
        assert false;
      }
    }
  }

  lemma {:induction false} OthersAreZero(c: seq<int>, on: seq<bool>, n: nat, w: int, j: nat, i: nat)
    requires n <= |c| == |on| && j < n && i < n && i != j && on[i] && on[j]
    requires SumOn(c, on, n) == w > 0 && c[j] >= w
    requires forall l :: 0 <= l < n && on[l] ==> 0 <= c[l]
    ensures c[i] == 0
  {
    var z := c[j := 0];
    SumOnUpdate(c, on, n, j, 0);
    SumOnAtLeast(z, on, n, 0, i);
  }

  /** W picks from Build's state bring every currentWeight back to where Build left it. */
  lemma Period(e: seq<int>, on: seq<bool>)
    requires Fleet(e, on)
    ensures After(Exact, e, e, on, TotalWeight(e, on)) == e
  {
    var w, n := TotalWeight(e, on), |e|;
    var j := OneIsOwed(e, on);
    var c := After(Exact, e, e, on, w - 1);
    var p := Added(Exact, c, e, on);
    forall i | 0 <= i < n && on[i] && i != j
      ensures p[i] < p[j]
    {
      WeightAtMostTotal(e, on, n, i);
    }
    FirstMaxIsLeader(p, on, n, j);
    var r := PickOnce(Exact, c, e, on).0;
    forall i | 0 <= i < n
      ensures r[i] == e[i]
    {
      if !on[i] {
        RejectedUntouched(e, on, w - 1, i);
      }
    }
  }

  lemma CycleRepeats(e: seq<int>, on: seq<bool>, t: nat)
    requires Fleet(e, on)
    ensures After(Exact, e, e, on, t + TotalWeight(e, on)) == After(Exact, e, e, on, t)
  {
    var w := TotalWeight(e, on);
    Period(e, on);
    AfterCompose(Exact, e, e, on, w, t);
    assert w + t == t + w;
  }

  lemma CycleShare(e: seq<int>, on: seq<bool>, t: nat, u: nat, i: nat)
    requires Fleet(e, on) && i < |e| && on[i] && u == t + TotalWeight(e, on)
    requires After(Exact, e, e, on, u) == After(Exact, e, e, on, t)
    ensures Count(Exact, e, e, on, u, i) - Count(Exact, e, e, on, t, i) == e[i]
  {
    hide After, Count;
    Ledger(e, on, t, i);
    Ledger(e, on, u, i);
    CycleArithmetic(e[i], TotalWeight(e, on), t, Count(Exact, e, e, on, u, i), Count(Exact, e, e, on, t, i),
                    After(Exact, e, e, on, t)[i]);
  }

  lemma CycleArithmetic(e: int, w: int, t: nat, x: nat, m: nat, c: int)
    requires w > 0 && c == Holding(e, w, t + w, x) && c == Holding(e, w, t, m)
    ensures x - m == e
  {
    HoldingValue(e, w, t + w, x);
    HoldingValue(e, w, t, m);
    assert (t + w) * e == t * e + w * e;
    assert w * (x - m - e) == 0;
  }

  /** Any W consecutive picks of a run, whenever they start, end in the state they began in and choose
      each accepted connection exactly as often as its weight says. */
  lemma ExactShareOfAnyCycle(e: seq<int>, on: seq<bool>, t: nat, i: nat)
    requires Fleet(e, on) && i < |e|
    ensures var w := TotalWeight(e, on);
            && After(Exact, e, e, on, t + w) == After(Exact, e, e, on, t)
            && Count(Exact, e, e, on, t + w, i) - Count(Exact, e, e, on, t, i) == if on[i] then e[i] else 0
  {
    hide After, Count;
    var w := TotalWeight(e, on);
    CycleRepeats(e, on, t);
    if on[i] {
      CycleShare(e, on, t, t + w, i);
    } else {
      RejectedUntouched(e, on, t, i);
      RejectedUntouched(e, on, t + w, i);
    }
  }

  lemma StepUp(k: int, x: int)
    ensures k * x == (k - 1) * x + x
  {
  }

  /** k*W picks from Build's state choose connection i exactly k*e[i] times. */
  lemma {:induction false} ExactShare(e: seq<int>, on: seq<bool>, k: nat, i: nat)
    requires Fleet(e, on) && i < |e|
    ensures var t := k * TotalWeight(e, on);
            && 0 <= t
            && After(Exact, e, e, on, t) == e
            && Count(Exact, e, e, on, t, i) == if on[i] then k * e[i] else 0
  {
    hide After, Count, TotalWeight;
    var w := TotalWeight(e, on);
    AtBuild(e, on, i);
    if k == 0 {
      assert 0 * w == 0;
    } else {
      ExactShare(e, on, k - 1, i);
      StepUp(k, w);
      StepUp(k, e[i]);
      ExactShareOfAnyCycle(e, on, (k - 1) * w, i);
    }
  }
}
