/**
 The statistics of loadbalance/p2c/picker.go under concurrency: callbacks of different calls interleave
 their atomic loads and stores, so updates can be lost. Arithmetic is over the reals with truncation;
 the decay factor is any real from 0 to 1, which exp of a non-positive number is.
 */
module P2CStats {
  import opened Prelude
  import opened P2C

  /** Where one call stands: under way, or in its callback between two atomic operations. */
  datatype Phase =
    | Outstanding(start: int)
    | Returned(start: int)
    | Sampled(sample: nat)
    | Loaded(sample: nat, old_: nat, w: real)
    | Stored(w: real)
    | Judged(w: real, old_: nat)
    | Finished

  datatype Call = Call(conn: nat, phase: Phase)

  /** slowest records, per connection, the largest latency sample computed so far. */
  datatype State = State(conns: seq<Stats>, calls: seq<Call>, slowest: seq<nat>)

  datatype Step =
    | Begin(conn: nat, now: int)
    | Decrement(c: nat)
    | SwapLast(c: nat, now: int)
    | LoadLatency(c: nat, w: real)
    | StoreLatency(c: nat)
    | LoadSuccess(c: nat)
    | StoreSuccess(c: nat, acceptable: bool)

  function Init(n: nat): State {
    State(seq(n, i => Stats(0, INIT_SUCCESS, 0, 0)), [], seq(n, i => 0))
  }

  ghost predicate Shaped(s: State) {
    |s.slowest| == |s.conns| && forall c :: 0 <= c < |s.calls| ==> s.calls[c].conn < |s.conns|
  }

  ghost predicate At(s: State, c: nat) {
    c < |s.calls|
  }

  ghost predicate Enabled(s: State, step: Step)
    requires Shaped(s)
  {
    match step
    case Begin(conn, now) => conn < |s.conns|
    case Decrement(c) => At(s, c) && s.calls[c].phase.Outstanding?
    case SwapLast(c, now) => At(s, c) && s.calls[c].phase.Returned?
    case LoadLatency(c, w) =>
      && At(s, c) && s.calls[c].phase.Sampled? && 0.0 <= w <= 1.0
      && (s.conns[s.calls[c].conn].latency == 0 ==> w == 0.0)
    case StoreLatency(c) => At(s, c) && s.calls[c].phase.Loaded?
    case LoadSuccess(c) => At(s, c) && s.calls[c].phase.Stored?
    case StoreSuccess(c, acceptable) => At(s, c) && s.calls[c].phase.Judged?
  }

  ghost function Moved(s: State, c: nat, phase: Phase): seq<Call>
    requires c < |s.calls|
  {
    s.calls[c := s.calls[c].(phase := phase)]
  }

  ghost function Apply(s: State, step: Step): State
    requires Shaped(s) && Enabled(s, step)
  {
    match step
    case Begin(conn, now) =>
      var k := s.conns[conn];
      s.(conns := s.conns[conn := k.(inflight := k.inflight + 1)], calls := s.calls + [Call(conn, Outstanding(now))])
    case Decrement(c) =>
      var i := s.calls[c].conn;
      var k := s.conns[i];
      s.(conns := s.conns[i := k.(inflight := k.inflight - 1)], calls := Moved(s, c, Returned(s.calls[c].phase.start)))
    case SwapLast(c, now) =>
      var i := s.calls[c].conn;
      var k := s.conns[i];
      var sample := NonNegative(now - s.calls[c].phase.start);
      State(s.conns[i := k.(last := now)], Moved(s, c, Sampled(sample)),
            s.slowest[i := if s.slowest[i] < sample then sample else s.slowest[i]])
    case LoadLatency(c, w) =>
      s.(calls := Moved(s, c, Loaded(s.calls[c].phase.sample, s.conns[s.calls[c].conn].latency, w)))
    case StoreLatency(c) =>
      var i, p := s.calls[c].conn, s.calls[c].phase;
      s.(conns := s.conns[i := s.conns[i].(latency := NonNegative(Mixed(p.old_, p.sample, p.w)))],
         calls := Moved(s, c, Stored(p.w)))
    case LoadSuccess(c) =>
      s.(calls := Moved(s, c, Judged(s.calls[c].phase.w, s.conns[s.calls[c].conn].success)))
    case StoreSuccess(c, acceptable) =>
      var i, p := s.calls[c].conn, s.calls[c].phase;
      var mixed := Mixed(p.old_, if acceptable then INIT_SUCCESS else 0, p.w);
      s.(conns := s.conns[i := s.conns[i].(success := NonNegative(mixed))], calls := Moved(s, c, Finished))
  }

  ghost function Run(n: nat, steps: seq<Step>): (r: Option<State>)
    ensures r.Some? ==> Shaped(r.value) && |r.value.conns| == n
    decreases |steps|
  {
    if steps == [] then Some(Init(n))
    else
      var last := |steps| - 1;
      match Run(n, steps[..last])
      case None => None
      case Some(s) => if Enabled(s, steps[last]) then Some(Apply(s, steps[last])) else None
  }

  /** The six steps of the callback of call c, uninterrupted. */
  ghost function Callback(c: nat, now: int, acceptable: bool, w: real): seq<Step> {
    [Decrement(c), SwapLast(c, now), LoadLatency(c, w), StoreLatency(c), LoadSuccess(c), StoreSuccess(c, acceptable)]
  }

  lemma RunOneMore(n: nat, steps: seq<Step>, step: Step)
    requires Run(n, steps).Some? && Enabled(Run(n, steps).value, step)
    ensures Run(n, steps + [step]) == Some(Apply(Run(n, steps).value, step))
  {
    assert (steps + [step])[..|steps|] == steps;
  }

  /** After any run, a callback that nothing interrupts changes its connection's statistics to Completed of
      the old ones, and nothing else. */
  lemma AloneIsCompleted(n: nat, steps: seq<Step>, c: nat, now: int, acceptable: bool, w: real)
    requires Run(n, steps).Some? && At(Run(n, steps).value, c) && Run(n, steps).value.calls[c].phase.Outstanding?
    requires 0.0 <= w <= 1.0
    requires var s := Run(n, steps).value; s.conns[s.calls[c].conn].latency == 0 ==> w == 0.0
    ensures Run(n, steps + Callback(c, now, acceptable, w)).Some?
    ensures var s, r := Run(n, steps).value, Run(n, steps + Callback(c, now, acceptable, w)).value;
            var i, call := s.calls[c].conn, s.calls[c];
            && r.conns == s.conns[i := Completed(s.conns[i], call.phase.start, now, acceptable, w)]
            && r.calls == s.calls[c := call.(phase := Finished)]
  {
    hide Run, Mixed;
    RunOneMore(n, steps, Decrement(c));
    var s1 := steps + [Decrement(c)];
    RunOneMore(n, s1, SwapLast(c, now));
    var s2 := s1 + [SwapLast(c, now)];
    RunOneMore(n, s2, LoadLatency(c, w));
    var s3 := s2 + [LoadLatency(c, w)];
    RunOneMore(n, s3, StoreLatency(c));
    var s4 := s3 + [StoreLatency(c)];
    RunOneMore(n, s4, LoadSuccess(c));
    var s5 := s4 + [LoadSuccess(c)];
    RunOneMore(n, s5, StoreSuccess(c, acceptable));
    assert s5 + [StoreSuccess(c, acceptable)] == steps + Callback(c, now, acceptable, w);
  }

  /** The calls of a connection that are under way: begun, and their callback has not decremented. */
  ghost function UnderWay(calls: seq<Call>, conn: nat, n: nat): nat
    requires n <= |calls|
  {
    if n == 0 then 0
    else UnderWay(calls, conn, n - 1) + if calls[n - 1].conn == conn && calls[n - 1].phase.Outstanding? then 1 else 0
  }

  lemma {:induction false} UnderWayUpdate(calls: seq<Call>, c: nat, phase: Phase, conn: nat, n: nat)
    requires n <= |calls| && c < |calls|
    ensures var was, becomes := calls[c].phase.Outstanding? && calls[c].conn == conn,
                                phase.Outstanding? && calls[c].conn == conn;
      UnderWay(calls[c := calls[c].(phase := phase)], conn, n) ==
      UnderWay(calls, conn, n) + if c < n then (if becomes then 1 else 0) - (if was then 1 else 0) else 0
  {
    if n > 0 {
      UnderWayUpdate(calls, c, phase, conn, n - 1);
    }
  }

  lemma {:induction false} UnderWayAppend(calls: seq<Call>, more: seq<Call>, conn: nat, n: nat)
    requires n <= |calls|
    ensures UnderWay(calls + more, conn, n) == UnderWay(calls, conn, n)
  {
    if n > 0 {
      UnderWayAppend(calls, more, conn, n - 1);
    }
  }

  ghost predicate CallInv(s: State, call: Call)
    requires Shaped(s) && call.conn < |s.conns|
  {
    var most := s.slowest[call.conn];
    match call.phase
    case Sampled(sample) => sample <= most
    case Loaded(sample, old_, w) => sample <= most && old_ <= most && 0.0 <= w <= 1.0
    case Stored(w) => 0.0 <= w <= 1.0
    case Judged(w, old_) => 0.0 <= w <= 1.0 && old_ <= INIT_SUCCESS
    case _ => true
  }

  ghost predicate Inv(s: State)
    requires Shaped(s)
  {
    && (forall i :: 0 <= i < |s.conns| ==>
         && s.conns[i].inflight == UnderWay(s.calls, i, |s.calls|)
         && s.conns[i].success <= INIT_SUCCESS
         && s.conns[i].latency <= s.slowest[i])
    && (forall c :: 0 <= c < |s.calls| ==> CallInv(s, s.calls[c]))
  }

  /** A weighted mean of two values up to m, cut down to an integer, lies between 0 and m. */
  lemma MixedBounds(old_: nat, new_: nat, w: real, m: nat)
    requires 0.0 <= w <= 1.0 && old_ <= m && new_ <= m
    ensures 0 <= Mixed(old_, new_, w) <= m
  {
    hide Part;
    PartBounds(old_, m, w);
    PartBounds(new_, m, 1.0 - w);
    WholeOfParts(m, w);
    FloorBounds(Part(old_, w) + Part(new_, 1.0 - w), m);
  }

  lemma PartBounds(x: nat, m: nat, w: real)
    requires x <= m && 0.0 <= w
    ensures 0.0 <= Part(x, w) <= Part(m, w)
  {
  }

  lemma WholeOfParts(m: nat, w: real)
    ensures Part(m, w) + Part(m, 1.0 - w) == m as real
  {
  }

  lemma FloorBounds(x: real, m: nat)
    requires 0.0 <= x <= m as real
    ensures 0 <= x.Floor <= m
  {
  }

  lemma StepKeepsCounts(s: State, step: Step, i: nat)
    requires Shaped(s) && Inv(s) && Enabled(s, step) && i < |s.conns|
    ensures var r := Apply(s, step); r.conns[i].inflight == UnderWay(r.calls, i, |r.calls|)
  {
    hide Mixed, CallInv, NonNegative;
    match step
    case Begin(conn, now) => UnderWayAppend(s.calls, [Call(conn, Outstanding(now))], i, |s.calls|);
    case _ =>
      var r := Apply(s, step);
      UnderWayUpdate(s.calls, step.c, r.calls[step.c].phase, i, |s.calls|);
  }

  lemma StepKeepsStats(s: State, step: Step)
    requires Shaped(s) && Inv(s) && Enabled(s, step)
    ensures var r := Apply(s, step); forall i :: 0 <= i < |s.conns| ==>
      s.slowest[i] <= r.slowest[i] && r.conns[i].success <= INIT_SUCCESS && r.conns[i].latency <= r.slowest[i]
  {
    hide Mixed, UnderWay;
    if step.StoreLatency? || step.StoreSuccess? {
      assert CallInv(s, s.calls[step.c]);
      var call := s.calls[step.c];
      if step.StoreLatency? {
        MixedBounds(call.phase.old_, call.phase.sample, call.phase.w, s.slowest[call.conn]);
      } else {
        MixedBounds(call.phase.old_, INIT_SUCCESS, call.phase.w, INIT_SUCCESS);
        MixedBounds(call.phase.old_, 0, call.phase.w, INIT_SUCCESS);
      }
    }
  }

  lemma StepKeepsCalls(s: State, step: Step, c: nat)
    requires Shaped(s) && Inv(s) && Enabled(s, step) && c < |Apply(s, step).calls|
    ensures CallInv(Apply(s, step), Apply(s, step).calls[c])
  {
    hide Mixed, UnderWay;
    if c < |s.calls| {
      assert CallInv(s, s.calls[c]);
    }
  }

  lemma StepKeepsInv(s: State, step: Step)
    requires Shaped(s) && Inv(s) && Enabled(s, step)
    ensures Shaped(Apply(s, step)) && Inv(Apply(s, step))
  {
    hide Mixed, UnderWay, CallInv;
    var r := Apply(s, step);
    StepKeepsStats(s, step);
    forall i: nat | i < |s.conns|
      ensures r.conns[i].inflight == UnderWay(r.calls, i, |r.calls|)
    {
      StepKeepsCounts(s, step, i);
    }
    forall c: nat | c < |r.calls|
      ensures CallInv(r, r.calls[c])
    {
      StepKeepsCalls(s, step, c);
    }
  }

  lemma {:induction false} InvHolds(n: nat, steps: seq<Step>)
    requires Run(n, steps).Some?
    ensures Inv(Run(n, steps).value)
    decreases |steps|
  {
    hide Apply, Enabled;
    if steps != [] {
      var last := |steps| - 1;
      InvHolds(n, steps[..last]);
      StepKeepsInv(Run(n, steps[..last]).value, steps[last]);
    }
  }

  /** In every interleaving: inflight is the number of calls under way, success stays within 0..1000, and
      no latency exceeds the slowest sample seen on its connection. */
  lemma StatisticsInBounds(n: nat, steps: seq<Step>, i: nat)
    requires Run(n, steps).Some? && i < n
    ensures var s := Run(n, steps).value;
      && 0 <= s.conns[i].inflight == UnderWay(s.calls, i, |s.calls|)
      && 0 <= s.conns[i].success <= INIT_SUCCESS
      && 0 <= s.conns[i].latency <= s.slowest[i]
  {
    InvHolds(n, steps);
  }

  /** load reads the latency and, any number of steps later, the count of calls; whatever happens in
      between, the product is not zero and the penalty is not paid. */
  lemma PenaltyNeverPaid(n: nat, steps: seq<Step>, more: seq<Step>, i: nat)
    requires Run(n, steps).Some? && Run(n, steps + more).Some? && i < n
    ensures var latency, inflight := Run(n, steps).value.conns[i].latency, Run(n, steps + more).value.conns[i].inflight;
            Load(latency, inflight) == FloorSqrt(latency + 1) * (inflight + 1) >= 1
  {
    hide Run, FloorSqrt, Load;
    StatisticsInBounds(n, steps, i);
    StatisticsInBounds(n, steps + more, i);
    PenaltyIff(Run(n, steps).value.conns[i].latency, Run(n, steps + more).value.conns[i].inflight);
  }
}
