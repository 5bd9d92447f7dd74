/**
 The power-of-two-choices picker of loadbalance/p2c/picker.go, the part that runs under the picker's
 lock: the choice between two connections by load, and the forced pick of a connection that has
 waited too long.
 */
module P2C {
  import opened Prelude

  const INIT_SUCCESS: nat := 1000
  const THROTTLE_SUCCESS: nat := 500
  const PENALTY: int := 0x7FFF_FFFF
  const FORCE_PICK: int := 1_000_000_000
  const PICK_TIMES: nat := 3

  /** The integer part of the square root. */
  function FloorSqrt(x: nat): (r: nat)
    ensures r * r <= x < (r + 1) * (r + 1)
  {
    if x == 0 then 0
    else
      var r := FloorSqrt(x - 1);
      if (r + 1) * (r + 1) <= x then r + 1 else r
  }

  function Load(latency: nat, inflight: int): int {
    var load := FloorSqrt(latency + 1) * (inflight + 1);
    if load == 0 then PENALTY else load
  }

  /** With calls counted from zero the load is at least one before the penalty is considered, so that
      branch is never taken; only a negative count of -1 would take it. */
  lemma PenaltyIff(latency: nat, inflight: int)
    ensures FloorSqrt(latency + 1) * (inflight + 1) == 0 <==> inflight == -1
    ensures inflight >= 0 ==> Load(latency, inflight) == FloorSqrt(latency + 1) * (inflight + 1) >= 1
  {
    RootAtLeastOne(latency + 1);
    ProductSign(FloorSqrt(latency + 1), inflight + 1);
  }

  lemma RootAtLeastOne(x: nat)
    requires x >= 1
    ensures FloorSqrt(x) >= 1
  {
    var r := FloorSqrt(x);
    assert x < (r + 1) * (r + 1);
  }

  lemma ProductSign(r: int, k: int)
    requires r >= 1
    ensures r * k == 0 <==> k == 0
    ensures k >= 1 ==> r * k >= 1
  {
    if k >= 1 {
      assert r * k >= r;
    } else if k <= -1 {
      assert r * k <= -r;
    }
  }

  /** Which of two connections is taken: true for the second. The lighter one, unless the heavier one
      was last picked more than FORCE_PICK ago. Equal loads make the second the heavier. */
  function SecondTaken(load1: int, load2: int, pick1: int, pick2: int, now: int): bool {
    if load1 > load2 then !(now - pick1 > FORCE_PICK) else now - pick2 > FORCE_PICK
  }

  /** The rule in terms of who has waited over FORCE_PICK: of two that have not, the lighter one is taken,
      the first if they are equal; of two that have, the heavier one; and one that alone has, whatever the
      loads. */
  lemma SecondTakenIff(load1: int, load2: int, pick1: int, pick2: int, now: int)
    ensures now - pick1 <= FORCE_PICK && now - pick2 <= FORCE_PICK ==>
      (SecondTaken(load1, load2, pick1, pick2, now) <==> load2 < load1)
    ensures now - pick1 > FORCE_PICK && now - pick2 > FORCE_PICK ==>
      (SecondTaken(load1, load2, pick1, pick2, now) <==> load1 <= load2)
    ensures now - pick1 > FORCE_PICK >= now - pick2 ==> !SecondTaken(load1, load2, pick1, pick2, now)
    ensures now - pick2 > FORCE_PICK >= now - pick1 ==> SecondTaken(load1, load2, pick1, pick2, now)
  {
  }

  /** What a pick sees of a connection. */
  datatype Seen = Seen(latency: nat, inflight: int, pick: int)

  /** Whether a pick at now may end with the second of two connections, in terms of their own statistics:
      their calls have been counted from zero. */
  ghost predicate Deserved(first: Seen, second: Seen, now: int, secondTaken: bool) {
    first.inflight >= 0 && second.inflight >= 0 ==>
      var load1 := FloorSqrt(first.latency + 1) * (first.inflight + 1);
      var load2 := FloorSqrt(second.latency + 1) * (second.inflight + 1);
      var waited1, waited2 := now - first.pick > FORCE_PICK, now - second.pick > FORCE_PICK;
      && (!waited1 && !waited2 ==> (secondTaken <==> load2 < load1))
      && (waited1 && waited2 ==> (secondTaken <==> load1 <= load2))
      && (waited1 != waited2 ==> secondTaken == waited2)
  }

  lemma RuleIsDeserved(first: Seen, second: Seen, now: int)
    ensures Deserved(first, second, now,
                     SecondTaken(Load(first.latency, first.inflight), Load(second.latency, second.inflight),
                                 first.pick, second.pick, now))
  {
    hide FloorSqrt, SecondTaken;
    PenaltyIff(first.latency, first.inflight);
    PenaltyIff(second.latency, second.inflight);
    SecondTakenIff(Load(first.latency, first.inflight), Load(second.latency, second.inflight),
                   first.pick, second.pick, now);
  }

  // ----- Two connections -----

  /** The times at which the two connections were last picked. */
  datatype Picks = Picks(first: int, second: int) {
    function Of(second_: bool): int {
      if second_ then second else first
    }
  }

  /** One pick: its time and the loads it finds. */
  datatype Moment = Moment(now: int, load1: int, load2: int)

  function Taken(p: Picks, m: Moment): bool {
    SecondTaken(m.load1, m.load2, p.first, p.second, m.now)
  }

  function Next(p: Picks, m: Moment): Picks {
    if Taken(p, m) then p.(second := m.now) else p.(first := m.now)
  }

  ghost predicate TakenAtOneOf(p: Picks, m1: Moment, m2: Moment, x: bool) {
    Taken(p, m1) == x || Taken(Next(p, m1), m2) == x
  }

  /** A connection that has waited longer than FORCE_PICK at one pick is certain, whatever the four loads
      are, to be taken at that pick or at the next iff the next comes within FORCE_PICK or the other
      connection has not waited that long. */
  lemma TakenWithinTwoIff(p: Picks, now1: int, now2: int, x: bool)
    requires now1 <= now2 && now1 - p.Of(x) > FORCE_PICK
    ensures (forall m1: Moment, m2: Moment :: m1.now == now1 && m2.now == now2 ==> TakenAtOneOf(p, m1, m2, x))
      <==> now2 - now1 <= FORCE_PICK || now1 - p.Of(!x) <= FORCE_PICK
  {
    var a := if x then 1 else 0;
    if now2 - now1 > FORCE_PICK && now1 - p.Of(!x) > FORCE_PICK {
      assert !TakenAtOneOf(p, Moment(now1, a, 0), Moment(now2, a, 0), x);
    }
  }

  ghost function After(p: Picks, ms: seq<Moment>, n: nat): Picks
    requires n <= |ms|
  {
    if n == 0 then p else Next(After(p, ms, n - 1), ms[n - 1])
  }

  /** The clock does not go back, and both connections were last picked before it starts. */
  ghost predicate Ordered(p: Picks, ms: seq<Moment>) {
    && (forall i :: 0 < i < |ms| ==> ms[i - 1].now <= ms[i].now)
    && (ms != [] ==> p.first <= ms[0].now && p.second <= ms[0].now)
  }

  ghost predicate Dense(ms: seq<Moment>) {
    forall i :: 0 < i < |ms| ==> ms[i].now - ms[i - 1].now <= FORCE_PICK
  }

  /** How long ago, at the time of the n-th pick, a connection was last picked. */
  ghost function Wait(p: Picks, ms: seq<Moment>, n: nat, x: bool): int
    requires 0 < n <= |ms|
  {
    ms[n - 1].now - After(p, ms, n).Of(x)
  }

  lemma {:induction false} PickedBefore(p: Picks, ms: seq<Moment>, n: nat, x: bool)
    requires Ordered(p, ms) && 0 < n <= |ms|
    ensures Wait(p, ms, n, x) >= 0
    decreases n
  {
    if n == 1 {
      assert After(p, ms, 0) == p;
    } else {
      PickedBefore(p, ms, n - 1, x);
    }
  }

  ghost predicate NobodyWaits(p: Picks, ms: seq<Moment>, n: nat)
    requires 0 < n <= |ms|
  {
    Wait(p, ms, n, false) <= FORCE_PICK && Wait(p, ms, n, true) <= FORCE_PICK
  }

  /** No connection is left waiting longer than FORCE_PICK by the second pick or a later one iff no two
      picks are further apart than that: whatever the loads, and wherever the picker started. */
  lemma NobodyStarvesIff(p: Picks, ms: seq<Moment>)
    requires Ordered(p, ms)
    ensures (forall n :: 2 <= n <= |ms| ==> NobodyWaits(p, ms, n)) <==> Dense(ms)
  {
    forall n | Dense(ms) && 2 <= n <= |ms| ensures NobodyWaits(p, ms, n) {
      assert ms[n - 1].now - ms[n - 2].now <= FORCE_PICK;
      assert After(p, ms, n - 1) == Next(After(p, ms, n - 2), ms[n - 2]);
    }
    forall n | 2 <= n <= |ms| && ms[n - 1].now - ms[n - 2].now > FORCE_PICK ensures !NobodyWaits(p, ms, n) {
      PickedBefore(p, ms, n - 1, !Taken(After(p, ms, n - 1), ms[n - 1]));
    }
    forall i | 0 < i < |ms| && forall n :: 2 <= n <= |ms| ==> NobodyWaits(p, ms, n)
      ensures ms[i].now - ms[i - 1].now <= FORCE_PICK
    {
      assert NobodyWaits(p, ms, i + 1);
    }
  }

  /** As long as no pick comes more than FORCE_PICK after both connections' last picks before the run, every
      pick goes to the connection with the lighter load, the first if they are equal. */
  lemma {:induction false} LivelyTrafficPicksLighter(p: Picks, ms: seq<Moment>, n: nat)
    requires Ordered(p, ms) && n < |ms|
    requires ms[n].now - p.first <= FORCE_PICK && ms[n].now - p.second <= FORCE_PICK
    ensures Taken(After(p, ms, n), ms[n]) <==> ms[n].load2 < ms[n].load1
  {
    NeverEarlier(p, ms, n);
  }

  lemma {:induction false} NeverEarlier(p: Picks, ms: seq<Moment>, n: nat)
    requires Ordered(p, ms) && n <= |ms|
    ensures p.first <= After(p, ms, n).first && p.second <= After(p, ms, n).second
    decreases n
  {
    if n > 0 {
      NeverEarlier(p, ms, n - 1);
      StartsFirst(p, ms, n - 1);
    }
  }

  lemma {:induction false} StartsFirst(p: Picks, ms: seq<Moment>, i: nat)
    requires Ordered(p, ms) && i < |ms|
    ensures p.first <= ms[i].now && p.second <= ms[i].now
    decreases i
  {
    if i > 0 {
      StartsFirst(p, ms, i - 1);
    }
  }

  /** And in any run, once both connections have been picked within FORCE_PICK, the lighter one is taken;
      a heavier one is taken only for its own wait. */
  lemma ChoiceByWaits(p: Picks, ms: seq<Moment>, n: nat)
    requires n < |ms|
    ensures var q, m := After(p, ms, n), ms[n];
            var heavier := m.load1 <= m.load2;
            Taken(q, m) == heavier <==> m.now - q.Of(heavier) > FORCE_PICK
  {
  }

  /** Under sparse traffic the picker is turned around: when more than FORCE_PICK passes between picks,
      every pick goes to the connection with the heavier load. */
  lemma {:induction false} SparseTrafficPicksHeavier(p: Picks, ms: seq<Moment>, n: nat)
    requires forall i :: 0 < i < |ms| ==> ms[i].now > ms[i - 1].now + FORCE_PICK
    requires |ms| > 0 ==> ms[0].now > p.first + FORCE_PICK && ms[0].now > p.second + FORCE_PICK
    requires n < |ms|
    ensures Taken(After(p, ms, n), ms[n]) <==> ms[n].load1 <= ms[n].load2
    decreases n
  {
    Aged(p, ms, n);
  }

  lemma {:induction false} Aged(p: Picks, ms: seq<Moment>, n: nat)
    requires forall i :: 0 < i < |ms| ==> ms[i].now > ms[i - 1].now + FORCE_PICK
    requires |ms| > 0 ==> ms[0].now > p.first + FORCE_PICK && ms[0].now > p.second + FORCE_PICK
    requires n < |ms|
    ensures var q := After(p, ms, n); ms[n].now > q.first + FORCE_PICK && ms[n].now > q.second + FORCE_PICK
    decreases n
  {
    if n > 0 {
      Aged(p, ms, n - 1);
    }
  }

  // ----- The picker -----

  function NonNegative(x: int): nat {
    if x < 0 then 0 else x
  }

  /** uint64(old*w + new*(1-w)). */
  function Mixed(old_: nat, new_: nat, w: real): int {
    (Part(old_, w) + Part(new_, 1.0 - w)).Floor
  }

  function Part(x: nat, w: real): real {
    x as real * w
  }

  /** The statistics of a connection. */
  datatype Stats = Stats(latency: nat, success: nat, inflight: int, last: int)

  /** The mean of an old and a new value with weight w on the old one, cut down to an integer. */
  lemma MixedIs(old_: nat, new_: nat, w: real)
    ensures Mixed(old_, new_, w) as real <= old_ as real * w + new_ as real * (1.0 - w)
            < Mixed(old_, new_, w) as real + 1.0
  {
  }

  /** At w = 0 it is the new value, at w = 1 the old one. */
  lemma MixedEnds(old_: nat, new_: nat)
    ensures Mixed(old_, new_, 0.0) == new_ && Mixed(old_, new_, 1.0) == old_
  {
  }

  /** In between it moves towards the old value as w grows. */
  lemma MixedMonotone(old_: nat, new_: nat, v: real, w: real)
    requires 0.0 <= v <= w <= 1.0
    ensures old_ <= new_ ==> old_ <= Mixed(old_, new_, w) <= Mixed(old_, new_, v) <= new_
    ensures old_ >= new_ ==> new_ <= Mixed(old_, new_, v) <= Mixed(old_, new_, w) <= old_
  {
    MixedForm(old_, new_, v);
    MixedForm(old_, new_, w);
    hide Mixed, Product;
    var d := new_ as real - old_ as real;
    if old_ <= new_ {
      TimesOrder(d, v, w);
      TimesOrder(d, w, 1.0);
    } else {
      TimesOrder(-d, v, w);
      TimesOrder(-d, w, 1.0);
      TimesMinus(d, v);
      TimesMinus(d, w);
    }
  }

  /** The mean, measured from the new value. */
  lemma MixedForm(old_: nat, new_: nat, w: real)
    ensures Mixed(old_, new_, w) == (new_ as real - Product(new_ as real - old_ as real, w)).Floor
  {
    assert Part(old_, w) + Part(new_, 1.0 - w) == new_ as real - Product(new_ as real - old_ as real, w);
  }

  // ----- Products of reals, by their laws -----

  ghost function Product(a: real, b: real): real {
    a * b
  }

  lemma ProductIs(a: real, b: real)
    ensures Product(a, b) == a * b
  {
  }

  lemma TimesOrder(d: real, v: real, w: real)
    requires 0.0 <= d && 0.0 <= v <= w
    ensures 0.0 <= Product(d, v) <= Product(d, w)
    ensures Product(d, 1.0) == d
  {
  }

  lemma TimesMinus(d: real, w: real)
    ensures Product(-d, w) == -Product(d, w)
  {
  }

  lemma Distribute(a: real, x: real, y: real)
    ensures Product(a, x - y) == Product(a, x) - Product(a, y)
    ensures Product(a, x + y) == Product(a, x) + Product(a, y)
    ensures Product(a, 1.0) == a
  {
  }

  lemma Associate(a: real, b: real, x: real)
    ensures Product(a, Product(b, x)) == Product(Product(a, b), x) == Product(b, Product(a, x))
  {
  }

  lemma Commute(a: real, b: real)
    ensures Product(a, b) == Product(b, a)
  {
  }

  lemma Positive(a: real, b: real)
    requires a > 0.0 && b > 0.0
    ensures Product(a, b) > 0.0
  {
  }

  /** The statistics after the callback of a call begun at start that ends at now, with decay factor w. */
  function Completed(k: Stats, start: int, now: int, acceptable: bool, w: real): Stats {
    Stats(NonNegative(Mixed(k.latency, NonNegative(now - start), w)),
          NonNegative(Mixed(k.success, if acceptable then INIT_SUCCESS else 0, w)),
          k.inflight - 1, now)
  }

  /** The statistics r that a callback leaves of k, in numbers: new values are means of old ones and of what
      the call showed, cut down. A call's latency is never negative, even on a clock that goes back. */
  ghost predicate Averaged(k: Stats, r: Stats, start: int, now: int, acceptable: bool, w: real) {
    var sample: nat := if now < start then 0 else now - start;
    var verdict: nat := if acceptable then 1000 else 0;
    && r.latency as real <= k.latency as real * w + sample as real * (1.0 - w) < r.latency as real + 1.0
    && r.success as real <= k.success as real * w + verdict as real * (1.0 - w) < r.success as real + 1.0
    && r.inflight == k.inflight - 1 && r.last == now
  }

  lemma CompletedIs(k: Stats, start: int, now: int, acceptable: bool, w: real)
    requires 0.0 <= w <= 1.0
    ensures Averaged(k, Completed(k, start, now, acceptable, w), start, now, acceptable, w)
  {
    var sample: nat := NonNegative(now - start);
    var verdict: nat := if acceptable then INIT_SUCCESS else 0;
    hide Mixed;
    MixedIs(k.latency, sample, w);
    MixedIs(k.success, verdict, w);
    NotBelow(k.latency, sample, w);
    NotBelow(k.success, verdict, w);
  }

  lemma NotBelow(old_: nat, new_: nat, w: real)
    requires 0.0 <= w <= 1.0
    ensures Mixed(old_, new_, w) >= 0
  {
    MixedMonotone(old_, new_, w, 1.0);
    MixedMonotone(old_, new_, 0.0, w);
  }

  /** The first callback of a connection forgets what the statistics were: latency becomes the sample, and
      success all or nothing. */
  lemma FirstSampleCounts(k: Stats, start: int, now: int, acceptable: bool)
    ensures var r := Completed(k, start, now, acceptable, 0.0);
            r.latency == (if now < start then 0 else now - start) && r.success == if acceptable then 1000 else 0
  {
    MixedEnds(k.latency, NonNegative(now - start));
    MixedEnds(k.success, if acceptable then INIT_SUCCESS else 0);
  }

  /** A failed call leaves a connection healthy exactly when at least 501 of its success remain after the
      decay; one with w = 0 never does. */
  lemma FailureIsUnhealthyIff(k: Stats, start: int, now: int, w: real)
    requires 0.0 <= w <= 1.0
    ensures Completed(k, start, now, false, w).success > THROTTLE_SUCCESS <==> k.success as real * w >= 501.0
  {
    hide Mixed;
    CompletedIs(k, start, now, false, w);
    assert 0.0 * (1.0 - w) == 0.0;
  }

  /** The latency after t callbacks that all see the sample l and the decay factor w. */
  ghost function Settled(latency: nat, l: nat, w: real, t: nat): nat {
    if t == 0 then latency else NonNegative(Mixed(Settled(latency, l, w, t - 1), l, w))
  }

  ghost function Power(w: real, t: nat): real {
    if t == 0 then 1.0 else w * Power(w, t - 1)
  }

  /** The latency approaches a constant sample: what it was loses weight by w at each callback, and all the
      truncations together take away less than 1/(1-w). */
  lemma LatencySettles(latency: nat, l: nat, w: real, t: nat)
    requires 0.0 <= w < 1.0
    ensures var left := l as real - Settled(latency, l, w, t) as real
                        - Power(w, t) * (l as real - latency as real);
            0.0 <= left && (1.0 - w) * left < 1.0
  {
    hide *;
    SettlesBy(latency, l, w, t);
    LeftIs(latency, l, w, t);
    ProductIs(1.0 - w, Left(latency, l, w, t));
  }

  /** What the truncations have taken away. */
  ghost function Left(latency: nat, l: nat, w: real, t: nat): real {
    l as real - Settled(latency, l, w, t) as real - Product(Power(w, t), l as real - latency as real)
  }

  lemma LeftIs(latency: nat, l: nat, w: real, t: nat)
    ensures Left(latency, l, w, t)
         == l as real - Settled(latency, l, w, t) as real - Power(w, t) * (l as real - latency as real)
  {
  }

  lemma {:induction false} SettlesBy(latency: nat, l: nat, w: real, t: nat)
    requires 0.0 <= w < 1.0
    ensures 0.0 <= Left(latency, l, w, t) && Product(1.0 - w, Left(latency, l, w, t)) < 1.0
  {
    if t == 0 {
      assert Left(latency, l, w, 0) == 0.0;
    } else {
      SettlesBy(latency, l, w, t - 1);
      var cut := SettleStep(latency, l, w, t);
      hide *;
      var left := Left(latency, l, w, t - 1);
      TimesOrder(w, 0.0, left);
      Distribute(1.0 - w, Product(w, left), cut);
      Associate(1.0 - w, w, left);
      MeanBelowOne(w, Product(1.0 - w, left), cut);
    }
  }

  /** One callback scales what has been taken away and cuts off less than 1. */
  lemma SettleStep(latency: nat, l: nat, w: real, t: nat) returns (cut: real)
    requires 0.0 <= w < 1.0 && t > 0
    ensures 0.0 <= cut < 1.0
    ensures Left(latency, l, w, t) == Product(w, Left(latency, l, w, t - 1)) + cut
  {
    var was, becomes := Settled(latency, l, w, t - 1), Settled(latency, l, w, t);
    var e, p := l as real - latency as real, Power(w, t - 1);
    hide Mixed;
    MixedIs(was, l, w);
    NotBelow(was, l, w);
    cut := was as real * w + l as real * (1.0 - w) - becomes as real;
    assert cut == l as real - Product(w, l as real - was as real) - becomes as real;
    assert Power(w, t) == Product(w, p);
    hide Product;
    Associate(w, p, e);
    Distribute(w, l as real - was as real, Product(p, e));
  }

  lemma MeanBelowOne(w: real, g: real, cut: real)
    requires 0.0 <= w < 1.0 && g < 1.0 && cut < 1.0
    ensures Product(w, g) + Product(1.0 - w, cut) < 1.0
  {
    hide Product;
    TimesOrder(w, 0.0, 1.0 - g);
    Positive(1.0 - w, 1.0 - cut);
    Distribute(w, 1.0, g);
    Distribute(1.0 - w, 1.0, cut);
  }

  lemma Lapsed(from: int, to: int)
    ensures NonNegative(to - from) == if to < from then 0 else to - from
  {
  }

  class Conn {
    var latency: nat
    var success: nat
    var inflight: int
    var requests: int
    var last: int
    var pick: int

    constructor ()
      ensures latency == 0 && success == INIT_SUCCESS && inflight == requests == last == pick == 0
    {
      latency, success, inflight, requests, last, pick := 0, INIT_SUCCESS, 0, 0, 0, 0;
    }

    function Statistics(): Stats
      reads this
    {
      Stats(latency, success, inflight, last)
    }

    /** The callback of a call begun at start that ends at now, when no other callback interferes.
        decay is what exp gives for the time since the last completion. */
    method Done(start: int, now: int, acceptable: bool, decay: nat -> real)
      requires forall td :: 0.0 <= decay(td) <= 1.0
      modifies this
      ensures var w := if old(latency) == 0 then 0.0 else decay(if now < old(last) then 0 else now - old(last));
              Statistics() == Completed(old(Statistics()), start, now, acceptable, w)
      ensures old(latency) == 0 ==>
        latency == (if now < start then 0 else now - start) && success == (if acceptable then 1000 else 0)
      ensures var w := if old(latency) == 0 then 0.0 else decay(if now < old(last) then 0 else now - old(last));
              Averaged(old(Statistics()), Statistics(), start, now, acceptable, w)
      ensures requests == old(requests) && pick == old(pick)
    {
      hide Mixed, NonNegative, Averaged;
      ghost var was := Statistics();
      inflight := inflight - 1;
      var td := NonNegative(now - last);
      last := now;
      var sample := NonNegative(now - start);
      var w := 0.0;
      var oldLatency := latency;
      if oldLatency != 0 {
        w := decay(td);
      }
      latency := NonNegative(Mixed(oldLatency, sample, w));
      success := NonNegative(Mixed(success, if acceptable then INIT_SUCCESS else 0, w));
      Lapsed(was.last, now);
      CompletedIs(was, start, now, acceptable, w);
      FirstSampleCounts(was, start, now, acceptable);
    }

    predicate Healthy()
      reads this
    {
      success > THROTTLE_SUCCESS
    }

    function CurrentLoad(): (load: int)
      reads this
      ensures inflight >= 0 ==> load == FloorSqrt(latency + 1) * (inflight + 1) >= 1
    {
      PenaltyIff(latency, inflight);
      Load(latency, inflight)
    }

    ghost function Sight(): Seen
      reads this
    {
      Seen(latency, inflight, pick)
    }
  }

  /** idx2 as drawn from n-1 values, moved past idx1. */
  function Partner(idx1: nat, idx2: nat): nat {
    if idx2 >= idx1 then idx2 + 1 else idx2
  }

  /** Every index other than idx1 is drawn by exactly one idx2. */
  lemma PartnerReachesOthers(n: nat, idx1: nat, k: nat)
    requires idx1 < n && k < n && k != idx1
    ensures exists idx2 :: 0 <= idx2 < n - 1 && Partner(idx1, idx2) == k
    ensures forall x: nat, y: nat :: Partner(idx1, x) == Partner(idx1, y) ==> x == y
    ensures forall x: nat :: x < n - 1 ==> Partner(idx1, x) < n && Partner(idx1, x) != idx1
  {
    assert Partner(idx1, if k > idx1 then k - 1 else k) == k;
  }

  /** The draws of one call: pairs of indices below n and n-1. */
  ghost predicate Draws(n: nat, draws: seq<(nat, nat)>) {
    |draws| == PICK_TIMES && forall i :: 0 <= i < PICK_TIMES ==> draws[i].0 < n && draws[i].1 < n - 1
  }

  /** The first pair of which both are healthy, or the last pair drawn. */
  function FirstHealthy(healthy: seq<bool>, draws: seq<(nat, nat)>, i: nat): (r: (nat, nat))
    requires i < |draws| && forall j :: 0 <= j < |draws| ==> draws[j].0 < |healthy| && draws[j].1 < |healthy| - 1
    ensures r.0 < |healthy| && r.1 < |healthy| && r.0 != r.1
    decreases |draws| - i
  {
    var pair := (draws[i].0, Partner(draws[i].0, draws[i].1));
    if (healthy[pair.0] && healthy[pair.1]) || i + 1 == |draws| then pair else FirstHealthy(healthy, draws, i + 1)
  }

  /** pair is the one drawn at turn i of at most three: at no earlier turn had both connections a success
      above 500, and at this one they have, if it is not the last. */
  ghost predicate DrawnAt(success: seq<nat>, draws: seq<(nat, nat)>, i: nat, pair: (nat, nat))
    requires Draws(|success|, draws)
  {
    && i < 3 && pair == (draws[i].0, Partner(draws[i].0, draws[i].1))
    && (i < 2 ==> success[pair.0] > 500 && success[pair.1] > 500)
    && forall j :: 0 <= j < i ==>
         success[draws[j].0] <= 500 || success[Partner(draws[j].0, draws[j].1)] <= 500
  }

  lemma {:induction false} FirstHealthyIsDrawn(success: seq<nat>, draws: seq<(nat, nat)>, healthy: seq<bool>, i: nat)
      returns (k: nat)
    requires Draws(|success|, draws) && i < 3 && |healthy| == |success|
    requires forall l :: 0 <= l < |success| ==> (healthy[l] <==> success[l] > THROTTLE_SUCCESS)
    requires forall j :: 0 <= j < i ==>
               success[draws[j].0] <= 500 || success[Partner(draws[j].0, draws[j].1)] <= 500
    ensures DrawnAt(success, draws, k, FirstHealthy(healthy, draws, i))
    decreases 3 - i
  {
    var pair := (draws[i].0, Partner(draws[i].0, draws[i].1));
    if (healthy[pair.0] && healthy[pair.1]) || i == 2 {
      k := i;
    } else {
      k := FirstHealthyIsDrawn(success, draws, healthy, i + 1);
    }
  }

  class Picker {
    const connections: seq<Conn>

    ghost predicate Valid() {
      forall i, j :: 0 <= i < j < |connections| ==> connections[i] != connections[j]
    }

    constructor (connections: seq<Conn>)
      ensures this.connections == connections
    {
      this.connections := connections;
    }

    ghost function Health(): (h: seq<bool>)
      reads connections
      ensures |h| == |connections|
    {
      seq(|connections|, i requires 0 <= i < |connections| reads connections => connections[i].Healthy())
    }

    ghost function Successes(): (s: seq<nat>)
      reads connections
      ensures |s| == |connections|
    {
      seq(|connections|, i requires 0 <= i < |connections| reads connections => connections[i].success)
    }

    /** The one of two connections that Pick's switch ends up with, marked as picked at now. */
    method Choose(i: nat, j: Option<nat>, now: int) returns (k: nat)
      requires Valid() && i < |connections| && (j.Some? ==> j.value < |connections| && j.value != i)
      modifies (set c | c in connections)`pick
      ensures j.None? ==> k == i
      ensures j.Some? ==> k == if old(SecondTaken(connections[i].CurrentLoad(), connections[j.value].CurrentLoad(),
                                                  connections[i].pick, connections[j.value].pick, now))
                               then j.value else i
      ensures j.Some? ==>
        Deserved(old(connections[i].Sight()), old(connections[j.value].Sight()), now, k == j.value)
      ensures connections[k].pick == now
      ensures forall l :: 0 <= l < |connections| && l != k ==> connections[l].pick == old(connections[l].pick)
    {
      if j.None? {
        connections[i].pick := now;
        return i;
      }
      RuleIsDeserved(connections[i].Sight(), connections[j.value].Sight(), now);
      hide Deserved, Load, FloorSqrt;
      var c1, c2 := i, j.value;
      if connections[c1].CurrentLoad() > connections[c2].CurrentLoad() {
        c1, c2 := c2, c1;
      }
      if now - connections[c2].pick > FORCE_PICK {
        connections[c2].pick := now;
        return c2;
      }
      connections[c1].pick := now;
      return c1;
    }

    /** Up to three draws of a pair of different connections, until both are healthy. */
    method DrawPair(draws: seq<(nat, nat)>) returns (node1: nat, node2: nat)
      requires |connections| >= 3 && Draws(|connections|, draws)
      ensures (node1, node2) == FirstHealthy(Health(), draws, 0)
      ensures exists i :: DrawnAt(Successes(), draws, i, (node1, node2))
    {
      node1, node2 := 0, 0;
      for i := 0 to PICK_TIMES
        invariant i < PICK_TIMES ==> FirstHealthy(Health(), draws, i) == FirstHealthy(Health(), draws, 0)
        invariant i == PICK_TIMES ==> (node1, node2) == FirstHealthy(Health(), draws, 0)
      {
        node1, node2 := draws[i].0, Partner(draws[i].0, draws[i].1);
        if connections[node1].Healthy() && connections[node2].Healthy() {
          break;
        }
      }
      ghost var k := FirstHealthyIsDrawn(Successes(), draws, Health(), 0);
    }

    /** One call under the lock: None is ErrNoSubConnAvailable. The chosen connection has one more call
        under way. */
    method Pick(now: int, draws: seq<(nat, nat)>) returns (chosen: Option<nat>)
      requires Valid() && (|connections| >= 3 ==> Draws(|connections|, draws))
      modifies (set c | c in connections)`pick, (set c | c in connections)`inflight, (set c | c in connections)`requests
      ensures chosen.None? <==> |connections| == 0
      ensures chosen.Some? ==> chosen.value < |connections| && connections[chosen.value].pick == now
      ensures |connections| == 2 ==>
        var a, b := connections[0], connections[1];
        chosen == Some(if old(SecondTaken(a.CurrentLoad(), b.CurrentLoad(), a.pick, b.pick, now)) then 1 else 0)
      ensures |connections| >= 3 ==>
        var pair := old(FirstHealthy(Health(), draws, 0));
        chosen == Some(if old(SecondTaken(connections[pair.0].CurrentLoad(), connections[pair.1].CurrentLoad(),
                                          connections[pair.0].pick, connections[pair.1].pick, now))
                       then pair.1 else pair.0)
      ensures |connections| == 2 ==>
        Deserved(old(connections[0].Sight()), old(connections[1].Sight()), now, chosen == Some(1))
      ensures |connections| >= 3 ==>
        var pair := old(FirstHealthy(Health(), draws, 0));
        && (exists i :: DrawnAt(old(Successes()), draws, i, pair))
        && (chosen == Some(pair.0) || chosen == Some(pair.1))
        && Deserved(old(connections[pair.0].Sight()), old(connections[pair.1].Sight()), now, chosen == Some(pair.1))
      ensures forall l :: 0 <= l < |connections| ==>
        var c, more := connections[l], if chosen == Some(l) then 1 else 0;
        && c.inflight == old(c.inflight) + more && c.requests == old(c.requests) + more
        && (chosen != Some(l) ==> c.pick == old(c.pick))
    {
      hide SecondTaken, Load, FirstHealthy, Deserved, DrawnAt;
      var k;
      match |connections| {
        case 0 =>
          return None;
        case 1 =>
          k := Choose(0, None, now);
        case 2 =>
          k := Choose(0, Some(1), now);
        case _ =>
          var node1, node2 := DrawPair(draws);
          k := Choose(node1, Some(node2), now);
      }
      var c := connections[k];
      c.inflight := c.inflight + 1;
      c.requests := c.requests + 1;
      return Some(k);
    }
  }
}
