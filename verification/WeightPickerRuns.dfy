/**
 The weighted picker under concurrency (loadbalance/roundrobin/weight_picker.go): any number of Pick
 calls and Done callbacks interleave, and only the per-connection mutexes order them. A step is what
 a goroutine does between two points at which another may act.
 */
module WeightPickerRuns {
  import opened Prelude
  import opened SmoothWeights
  import opened WeightPicker

  datatype Phase =
    | Scan(i: nat)      // about to look at connection i
    | Locked(i: nat)    // holds the mutex of connection i
    | Bumped(i: nat)    // has increased connection i, still holds its mutex
    | Charge            // the scan found a candidate, the total is still to be subtracted
    | Returned          // the caller has its connection, Done has not run
    | Finished          // Done has run
    | Failed            // ErrNoSubConnAvailable

  /** One Pick call with its filter verdicts and its local variables. */
  datatype Thread = Thread(on: seq<bool>, phase: Phase, total: uint32, max: Option<nat>)

  datatype State = State(weight: seq<uint32>, current: seq<uint32>, efficient: seq<uint32>,
                         mutex: seq<Option<nat>>, threads: seq<Thread>)

  datatype Step =
    | Call(on: seq<bool>)
    | Skip(t: nat)
    | Lock(t: nat)
    | Bump(t: nat)
    | Compare(t: nat)
    | Finish(t: nat)
    | Subtract(t: nat)
    | Done(t: nat, failed: bool)

  function Init(weight: seq<uint32>): State {
    State(weight, weight, weight, seq(|weight|, i => None), [])
  }

  ghost predicate Shaped(s: State) {
    && |s.weight| == |s.current| == |s.efficient| == |s.mutex|
    && (forall t :: 0 <= t < |s.threads| ==> ThreadShaped(s, s.threads[t]))
  }

  ghost predicate ThreadShaped(s: State, th: Thread) {
    && |th.on| == |s.weight|
    && (th.max.Some? ==> th.max.value < |s.weight|)
    && (th.phase.Scan? ==> th.phase.i <= |s.weight|)
    && (th.phase.Locked? || th.phase.Bumped? ==> th.phase.i < |s.weight|)
    && (th.phase.Charge? || th.phase.Returned? ==> th.max.Some?)
    && (th.max.None? && !th.phase.Bumped? ==> th.total == 0)
  }

  ghost predicate Enabled(s: State, step: Step)
    requires Shaped(s)
  {
    match step
    case Call(on) => |on| == |s.weight|
    case Skip(t) => t < |s.threads| &&
      var th := s.threads[t]; th.phase.Scan? && th.phase.i < |s.weight| && !th.on[th.phase.i]
    case Lock(t) => t < |s.threads| &&
      var th := s.threads[t];
      th.phase.Scan? && th.phase.i < |s.weight| && th.on[th.phase.i] && s.mutex[th.phase.i].None?
    case Bump(t) => t < |s.threads| && s.threads[t].phase.Locked?
    case Compare(t) => t < |s.threads| && s.threads[t].phase.Bumped?
    case Finish(t) => t < |s.threads| && s.threads[t].phase == Scan(|s.weight|)
    case Subtract(t) => t < |s.threads| && s.threads[t].phase.Charge? && s.mutex[s.threads[t].max.value].None?
    case Done(t, failed) => t < |s.threads| && s.threads[t].phase.Returned? && s.mutex[s.threads[t].max.value].None?
  }

  ghost function Apply(s: State, step: Step): State
    requires Shaped(s) && Enabled(s, step)
  {
    match step
    case Call(on) => s.(threads := s.threads + [Thread(on, Scan(0), 0, None)])
    case Skip(t) =>
      var th := s.threads[t];
      s.(threads := s.threads[t := th.(phase := Scan(th.phase.i + 1))])
    case Lock(t) =>
      var th := s.threads[t];
      s.(threads := s.threads[t := th.(phase := Locked(th.phase.i))],
         mutex := s.mutex[th.phase.i := Some(t)])
    case Bump(t) =>
      var th := s.threads[t];
      var i := th.phase.i;
      var grant: int := s.efficient[i];
      s.(threads := s.threads[t := th.(phase := Bumped(i), total := Wrap32(th.total + grant))],
         current := s.current[i := Wrap32(s.current[i] + grant)])
    case Compare(t) =>
      // reads the candidate's weight without holding the candidate's mutex
      var th := s.threads[t];
      var i := th.phase.i;
      var max := if th.max.None? || s.current[th.max.value] < s.current[i] then Some(i) else th.max;
      s.(threads := s.threads[t := th.(phase := Scan(i + 1), max := max)],
         mutex := s.mutex[i := None])
    case Finish(t) =>
      var th := s.threads[t];
      s.(threads := s.threads[t := th.(phase := if th.max.None? then Failed else Charge)])
    case Subtract(t) =>
      var th := s.threads[t];
      var k := th.max.value;
      s.(threads := s.threads[t := th.(phase := Returned)],
         current := s.current[k := Wrap32(s.current[k] - th.total)])
    case Done(t, failed) =>
      var th := s.threads[t];
      var k := th.max.value;
      s.(threads := s.threads[t := th.(phase := Finished)],
         efficient := s.efficient[k := AfterDone(s.weight[k], s.efficient[k], failed)])
  }

  /** Where a list of steps leads, if every one of them is possible when its turn comes. */
  ghost function Exec(s: State, steps: seq<Step>): (r: Option<State>)
    requires Shaped(s)
    ensures r.Some? ==> Shaped(r.value) && r.value.weight == s.weight
    decreases |steps|
  {
    if steps == [] then Some(s)
    else
      var last := |steps| - 1;
      match Exec(s, steps[..last])
      case None => None
      case Some(r) =>
        if Enabled(r, steps[last]) then
          StaysShaped(r, steps[last]);
          Some(Apply(r, steps[last]))
        else None
  }

  /** A run from the state Build leaves. */
  ghost function Run(weight: seq<uint32>, steps: seq<Step>): (r: Option<State>)
    ensures r.Some? ==> Shaped(r.value) && r.value.weight == weight
  {
    Exec(Init(weight), steps)
  }

  lemma StaysShaped(s: State, step: Step)
    requires Shaped(s) && Enabled(s, step)
    ensures Shaped(Apply(s, step)) && Apply(s, step).weight == s.weight
  {
    var r := Apply(s, step);
    assert forall t :: 0 <= t < |s.threads| && r.threads[t] == s.threads[t] ==> ThreadShaped(r, r.threads[t]);
  }

  /** What a call has added to the connections and not yet taken back. */
  ghost function Owes(th: Thread): uint32 {
    if th.phase.Returned? || th.phase.Finished? || th.phase.Failed? then 0 else th.total
  }

  ghost function Owed(threads: seq<Thread>): (r: seq<int>)
    ensures |r| == |threads|
  {
    seq(|threads|, t requires 0 <= t < |threads| => Owes(threads[t]))
  }

  lemma OwedUpdate(threads: seq<Thread>, t: nat, th: Thread)
    requires t < |threads|
    ensures Total(Owed(threads[t := th])) == Total(Owed(threads)) - Owes(threads[t]) + Owes(th)
  {
    assert Owed(threads[t := th]) == Owed(threads)[t := Owes(th)];
    TotalUpdate(Owed(threads), t, Owes(th));
  }

  /** The sum of the current weights beyond the initial weights and the calls under way. */
  ghost function Drift(s: State): int {
    Total(s.current) - Total(s.weight) - Total(Owed(s.threads))
  }

  lemma StepKeepsDrift(s: State, step: Step)
    requires Shaped(s) && Enabled(s, step)
    ensures Wrap32(Drift(Apply(s, step))) == Wrap32(Drift(s))
  {
    hide Wrap32, AfterDone, Total;
    var r := Apply(s, step);
    match step
    case Call(on) =>
      assert Owed(r.threads) == Owed(s.threads) + [0];
      TotalAppend(Owed(s.threads), 0);
    case Bump(t) =>
      var i := s.threads[t].phase.i;
      OwedUpdate(s.threads, t, r.threads[t]);
      TotalUpdate(s.current, i, r.current[i]);
      BumpArithmetic(Drift(s), s.current[i], s.threads[t].total, s.efficient[i]);
    case Subtract(t) =>
      var k := s.threads[t].max.value;
      OwedUpdate(s.threads, t, r.threads[t]);
      TotalUpdate(s.current, k, r.current[k]);
      ChargeArithmetic(Drift(s), s.current[k], s.threads[t].total);
    case _ =>
      OwedUpdate(s.threads, step.t, r.threads[step.t]);
  }

  lemma BumpArithmetic(d: int, c: uint32, total: uint32, e: uint32)
    ensures Wrap32(d - c + Wrap32(c + e) + total - Wrap32(total + e)) == Wrap32(d)
  {
  }

  lemma ChargeArithmetic(d: int, c: uint32, total: uint32)
    ensures Wrap32(d - c + Wrap32(c - total) + total) == Wrap32(d)
  {
  }

  /** Conservation. In every interleaving the current weights sum, modulo 2^32, to the initial weights
      plus what the calls under way have added so far, whatever the filters and the Done reports. */
  lemma Conserved(weight: seq<uint32>, steps: seq<Step>)
    requires Run(weight, steps).Some?
    ensures var s := Run(weight, steps).value;
            Wrap32(Total(s.current)) == Wrap32(Total(weight) + Total(Owed(s.threads)))
    decreases |steps|
  {
    DriftIsZero(weight, steps);
    hide Apply, Enabled, Run, Shaped, Wrap32, Total, Owed;
    var s := Run(weight, steps).value;
    assert Total(s.current) == Total(weight) + Total(Owed(s.threads)) + Drift(s);
    MultipleVanishes(Total(weight) + Total(Owed(s.threads)), Drift(s));
  }

  lemma MultipleVanishes(x: int, d: int)
    requires Wrap32(d) == 0
    ensures Wrap32(x + d) == Wrap32(x)
  {
  }

  lemma {:induction false} DriftIsZero(weight: seq<uint32>, steps: seq<Step>)
    requires Run(weight, steps).Some?
    ensures Wrap32(Drift(Run(weight, steps).value)) == 0
    decreases |steps|
  {
    if steps == [] {
      assert Owed([]) == [];
    } else {
      hide Apply, Enabled, Drift;
      var last := |steps| - 1;
      DriftIsZero(weight, steps[..last]);
      StepKeepsDrift(Run(weight, steps[..last]).value, steps[last]);
    }
  }

  // ----- What the reports add up to -----

  /** How many reports of the given kind connection i has had: callbacks of calls that had chosen it. */
  ghost function Reports(weight: seq<uint32>, steps: seq<Step>, i: nat, failed: bool): nat
    requires Run(weight, steps).Some?
  {
    if steps == [] then 0
    else
      var last := |steps| - 1;
      var s := Run(weight, steps[..last]).value;
      Reports(weight, steps[..last], i, failed)
      + if steps[last].Done? && steps[last].failed == failed && s.threads[steps[last].t].max == Some(i) then 1 else 0
  }

  /** In every interleaving an efficient weight is the initial one, plus the successes reported of its
      connection, minus the failures if the connection has a weight, as long as there are no more failures
      than the initial weight has room for, and no more successes than uint32 has. */
  lemma {:induction false} EfficientCounts(weight: seq<uint32>, steps: seq<Step>, i: nat)
    requires Run(weight, steps).Some? && i < |weight|
    requires weight[i] > 0 ==> Reports(weight, steps, i, true) <= weight[i]
    requires weight[i] + Reports(weight, steps, i, false) <= MAX_UINT32
    ensures Run(weight, steps).value.efficient[i] as int == weight[i] + Reports(weight, steps, i, false)
              - if weight[i] > 0 then Reports(weight, steps, i, true) else 0
    decreases |steps|
  {
    hide Apply, Enabled, AfterDone;
    if steps == [] {
      assert Run(weight, []) == Some(Init(weight));
    } else {
      var last := |steps| - 1;
      EfficientCounts(weight, steps[..last], i);
      var s := Run(weight, steps[..last]).value;
      EfficientStep(s, steps[last], i);
      DoneIs(weight[i], s.efficient[i]);
    }
  }

  lemma DoneIs(weight: uint32, efficient: uint32)
    ensures efficient < MAX_UINT32 ==> AfterDone(weight, efficient, false) as int == efficient + 1
    ensures weight > 0 && efficient > 0 ==> AfterDone(weight, efficient, true) == efficient - 1
    ensures weight == 0 ==> AfterDone(weight, efficient, true) == efficient
  {
  }

  lemma EfficientStep(s: State, step: Step, i: nat)
    requires Shaped(s) && Enabled(s, step) && i < |s.weight|
    ensures var r := Apply(s, step);
            r.efficient[i] == if step.Done? && s.threads[step.t].max == Some(i)
                              then AfterDone(s.weight[i], s.efficient[i], step.failed) else s.efficient[i]
  {
    hide Wrap32, AfterDone;
  }

  // ----- The mutexes do their work -----

  ghost predicate InSection(th: Thread, i: nat) {
    th.phase == Locked(i) || th.phase == Bumped(i)
  }

  /** A mutex names exactly the one call that is inside its section. */
  ghost predicate MutexesHeld(s: State) {
    forall i, t :: 0 <= i < |s.mutex| && 0 <= t < |s.threads| ==>
      (s.mutex[i] == Some(t) <==> InSection(s.threads[t], i))
  }

  ghost predicate HoldersExist(s: State) {
    forall i :: 0 <= i < |s.mutex| && s.mutex[i].Some? ==> s.mutex[i].value < |s.threads|
  }

  lemma StepKeepsMutexes(s: State, step: Step)
    requires Shaped(s) && Enabled(s, step) && MutexesHeld(s) && HoldersExist(s)
    ensures MutexesHeld(Apply(s, step)) && HoldersExist(Apply(s, step))
  {
    hide Wrap32, AfterDone;
    var r := Apply(s, step);
    match step
    case Lock(t) =>
      var i := s.threads[t].phase.i;
      assert forall u :: 0 <= u < |s.threads| ==> !InSection(s.threads[u], i);
    case Compare(t) =>
      var i := s.threads[t].phase.i;
      assert s.mutex[i] == Some(t);
    case _ =>
      assert r.mutex == s.mutex;
  }

  lemma {:induction false} Exclusion(weight: seq<uint32>, steps: seq<Step>)
    requires Run(weight, steps).Some?
    ensures MutexesHeld(Run(weight, steps).value) && HoldersExist(Run(weight, steps).value)
    decreases |steps|
  {
    hide Apply, Enabled;
    if steps != [] {
      var last := |steps| - 1;
      Exclusion(weight, steps[..last]);
      StepKeepsMutexes(Run(weight, steps[..last]).value, steps[last]);
    }
  }

  /** While one call is inside the section of connection i, no step of another call or callback changes
      that connection's weights; so what Compare reads of it is what Bump wrote. */
  lemma SectionUndisturbed(weight: seq<uint32>, steps: seq<Step>, step: Step, t: nat, i: nat)
    requires Run(weight, steps).Some? && Enabled(Run(weight, steps).value, step)
    requires var s := Run(weight, steps).value;
             t < |s.threads| && i < |weight| && InSection(s.threads[t], i) && (step.Call? || step.t != t)
    ensures var s := Run(weight, steps).value;
            var r := Apply(s, step);
            r.threads[t] == s.threads[t] && r.current[i] == s.current[i] && r.efficient[i] == s.efficient[i]
  {
    Exclusion(weight, steps);
    OthersKeepOut(Run(weight, steps).value, step, t, i);
  }

  lemma OthersKeepOut(s: State, step: Step, t: nat, i: nat)
    requires Shaped(s) && Enabled(s, step) && MutexesHeld(s)
    requires t < |s.threads| && i < |s.mutex| && InSection(s.threads[t], i) && (step.Call? || step.t != t)
    ensures var r := Apply(s, step);
            r.threads[t] == s.threads[t] && r.current[i] == s.current[i] && r.efficient[i] == s.efficient[i]
  {
    hide Wrap32, AfterDone;
    assert s.mutex[i] == Some(t);
    if step.Bump? {
      assert s.mutex[s.threads[step.t].phase.i] == Some(step.t);
    }
  }

  // ----- A call that nothing interrupts is the sequential picker -----

  lemma ExecOneMore(s: State, steps: seq<Step>, step: Step)
    requires Shaped(s) && Exec(s, steps).Some? && Enabled(Exec(s, steps).value, step)
    ensures Exec(s, steps + [step]) == Some(Apply(Exec(s, steps).value, step))
  {
    assert (steps + [step])[..|steps|] == steps;
  }

  /** Call number t, alone, up to the point where it has scanned i connections. */
  ghost function SoloScan(on: seq<bool>, t: nat, i: nat): seq<Step>
    requires i <= |on|
  {
    if i == 0 then [Call(on)]
    else SoloScan(on, t, i - 1) + if on[i - 1] then [Lock(t)] + [Bump(t)] + [Compare(t)] else [Skip(t)]
  }

  /** The whole call; without a candidate it ends when the scan does. */
  ghost function Solo(on: seq<bool>, t: nat, found: bool): seq<Step> {
    SoloScan(on, t, |on|) + [Finish(t)] + if found then [Subtract(t)] else []
  }

  /** The state s with the first i connections scanned by a new call. */
  ghost function Scanned(s: State, on: seq<bool>, i: nat): State
    requires Shaped(s) && |on| == |s.weight| && i <= |on|
  {
    var p := Added(Wrapping, s.current, s.efficient, on);
    s.(current := Blend(p, s.current, i),
       threads := s.threads + [Thread(on, Scan(i), Wrap32(SumOn(s.efficient, on, i)), Leader(p, on, i))])
  }

  ghost function Blend(p: seq<int>, c: seq<uint32>, i: nat): (r: seq<uint32>)
    requires |p| == |c| && i <= |c| && forall j :: 0 <= j < |p| ==> 0 <= p[j] < TWO32
    ensures |r| == |c|
  {
    seq(|c|, j requires 0 <= j < |c| => if j < i then p[j] else c[j])
  }

  lemma {:induction false} SoloScanLeads(s: State, on: seq<bool>, i: nat)
    requires Shaped(s) && |on| == |s.weight| && i <= |on|
    requires forall j :: 0 <= j < |on| ==> s.mutex[j].None?
    ensures Exec(s, SoloScan(on, |s.threads|, i)) == Some(Scanned(s, on, i))
  {
    hide Apply, Enabled, Exec, Scanned;
    var t := |s.threads|;
    if i == 0 {
      SoloCall(s, on);
    } else {
      SoloScanLeads(s, on, i - 1);
      var steps := SoloScan(on, t, i - 1);
      if on[i - 1] {
        SoloVisit(s, on, i);
        ExecOneMore(s, steps, Lock(t));
        ExecOneMore(s, steps + [Lock(t)], Bump(t));
        ExecOneMore(s, steps + [Lock(t)] + [Bump(t)], Compare(t));
        assert steps + [Lock(t)] + [Bump(t)] + [Compare(t)] == SoloScan(on, t, i);
      } else {
        SoloSkip(s, on, i);
        ExecOneMore(s, steps, Skip(t));
      }
    }
  }

  lemma SoloCall(s: State, on: seq<bool>)
    requires Shaped(s) && |on| == |s.weight|
    ensures Exec(s, SoloScan(on, |s.threads|, 0)) == Some(Scanned(s, on, 0))
  {
    ExecOneMore(s, [], Call(on));
    assert [] + [Call(on)] == SoloScan(on, |s.threads|, 0);
    assert Scanned(s, on, 0).current == s.current;
  }

  lemma SoloSkip(s: State, on: seq<bool>, i: nat)
    requires Shaped(s) && |on| == |s.weight| && 0 < i <= |on| && !on[i - 1]
    ensures var t, u := |s.threads|, Scanned(s, on, i - 1);
            Shaped(u) && Enabled(u, Skip(t)) && Apply(u, Skip(t)) == Scanned(s, on, i)
  {
    var t, u := |s.threads|, Scanned(s, on, i - 1);
    SoloScanShaped(s, on, i - 1);
    assert Scanned(s, on, i).current == u.current;
    assert Apply(u, Skip(t)).threads == Scanned(s, on, i).threads;
  }

  lemma SoloVisit(s: State, on: seq<bool>, i: nat)
    requires Shaped(s) && |on| == |s.weight| && 0 < i <= |on| && on[i - 1]
    requires forall j :: 0 <= j < |on| ==> s.mutex[j].None?
    ensures var t, u := |s.threads|, Scanned(s, on, i - 1);
            && Shaped(u) && Enabled(u, Lock(t))
            && Shaped(Apply(u, Lock(t))) && Enabled(Apply(u, Lock(t)), Bump(t))
            && Shaped(Apply(Apply(u, Lock(t)), Bump(t))) && Enabled(Apply(Apply(u, Lock(t)), Bump(t)), Compare(t))
            && Apply(Apply(Apply(u, Lock(t)), Bump(t)), Compare(t)) == Scanned(s, on, i)
  {
    var t, u := |s.threads|, Scanned(s, on, i - 1);
    assert Shaped(u) by {
      SoloScanShaped(s, on, i - 1);
    }
    StaysShaped(u, Lock(t));
    var v := Apply(u, Lock(t));
    StaysShaped(v, Bump(t));
    var w := Apply(v, Bump(t));
    WrapAbsorb(SumOn(s.efficient, on, i - 1), s.efficient[i - 1]);
    var r, goal := Apply(w, Compare(t)), Scanned(s, on, i);
    assert w.current == goal.current;
    assert r.mutex == s.mutex;
    assert r.threads == goal.threads;
  }

  lemma SoloScanShaped(s: State, on: seq<bool>, i: nat)
    requires Shaped(s) && |on| == |s.weight| && i <= |on|
    ensures Shaped(Scanned(s, on, i))
  {
    var u := Scanned(s, on, i);
    LeaderIsFirstMax(Added(Wrapping, s.current, s.efficient, on), on, i);
    RejectedSum(s.efficient, on, i);
    forall t | 0 <= t < |u.threads|
      ensures ThreadShaped(u, u.threads[t])
    {
      if t < |s.threads| {
        assert ThreadShaped(s, s.threads[t]);
      }
    }
  }

  lemma {:induction false} RejectedSum(e: seq<int>, on: seq<bool>, i: nat)
    requires i <= |e| == |on|
    ensures (forall j :: 0 <= j < i ==> !on[j]) ==> SumOn(e, on, i) == 0
  {
    if i > 0 {
      RejectedSum(e, on, i - 1);
    }
  }

  /** Whatever the other calls have done before, a call that runs from start to end on its own, with no
      mutex held, leaves the weights and makes the choice of the sequential picker; it fails exactly when
      that finds no candidate. */
  lemma SoloIsPickOnce(s: State, on: seq<bool>)
    requires Shaped(s) && |on| == |s.weight|
    requires forall j :: 0 <= j < |on| ==> s.mutex[j].None?
    ensures var pick := PickOnce(Wrapping, s.current, s.efficient, on);
            var after := Exec(s, Solo(on, |s.threads|, pick.1.Some?));
            && after.Some?
            && var r := after.value;
            && r.current == pick.0
            && |r.threads| == |s.threads| + 1
            && r.threads[|s.threads|].phase == (if pick.1.Some? then Returned else Failed)
            && r.threads[|s.threads|].max == pick.1
            && r.efficient == s.efficient && r.mutex == s.mutex && r.threads[..|s.threads|] == s.threads
  {
    hide Apply, Enabled;
    var t, steps := |s.threads|, SoloScan(on, |s.threads|, |on|);
    SoloScanLeads(s, on, |on|);
    if PickOnce(Wrapping, s.current, s.efficient, on).1.Some? {
      SoloEnd(s, on);
      ExecOneMore(s, steps, Finish(t));
      ExecOneMore(s, steps + [Finish(t)], Subtract(t));
    } else {
      SoloFails(s, on);
      ExecOneMore(s, steps, Finish(t));
      assert steps + [Finish(t)] + [] == steps + [Finish(t)];
    }
  }

  lemma SoloFails(s: State, on: seq<bool>)
    requires Shaped(s) && |on| == |s.weight|
    requires Leader(Added(Wrapping, s.current, s.efficient, on), on, |on|).None?
    ensures var t, u := |s.threads|, Scanned(s, on, |on|);
            && Shaped(u) && Enabled(u, Finish(t))
            && var r := Apply(u, Finish(t));
            && r.current == PickOnce(Wrapping, s.current, s.efficient, on).0
            && |r.threads| == t + 1 && r.threads[t].phase == Failed && r.threads[t].max == None
            && r.efficient == s.efficient && r.mutex == s.mutex && r.threads[..t] == s.threads
  {
    SoloScanShaped(s, on, |on|);
    assert Scanned(s, on, |on|).current == Added(Wrapping, s.current, s.efficient, on);
  }

  lemma SoloEnd(s: State, on: seq<bool>)
    requires Shaped(s) && |on| == |s.weight|
    requires forall j :: 0 <= j < |on| ==> s.mutex[j].None?
    requires Leader(Added(Wrapping, s.current, s.efficient, on), on, |on|).Some?
    ensures var t, u := |s.threads|, Scanned(s, on, |on|);
            && Shaped(u) && Enabled(u, Finish(t))
            && Shaped(Apply(u, Finish(t))) && Enabled(Apply(u, Finish(t)), Subtract(t))
    ensures var t := |s.threads|;
            var r, pick := Apply(Apply(Scanned(s, on, |on|), Finish(t)), Subtract(t)),
                           PickOnce(Wrapping, s.current, s.efficient, on);
            && r.current == pick.0
            && |r.threads| == t + 1 && r.threads[t].phase == Returned && r.threads[t].max == pick.1
            && r.efficient == s.efficient && r.mutex == s.mutex && r.threads[..t] == s.threads
  {
    var t, u := |s.threads|, Scanned(s, on, |on|);
    SoloScanShaped(s, on, |on|);
    assert u.current == Added(Wrapping, s.current, s.efficient, on);
    StaysShaped(u, Finish(t));
    WrapDifference(u.current[u.threads[t].max.value], TotalWeight(s.efficient, on));
  }
}
