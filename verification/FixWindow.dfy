/**
 The lock-free fixed-window limiter of ratelimit/fix_window.go. A request reads the clock, loads the
 window start, may move it with a compare-and-swap, in a separate step clears the counter, and then
 draws a number from the counter. Any number of requests interleave between those steps.
 */
module FixWindow {
  import opened Prelude

  /** One second in nanoseconds: the clock is time.Now().Nanosecond(), which stays below it. */
  const SECOND: int := 1_000_000_000

  const MAX_INT64: int := 0x7FFF_FFFF_FFFF_FFFF

  function Wrap64(x: int): (r: int)
    ensures -MAX_INT64 - 1 <= r <= MAX_INT64
  {
    (x + MAX_INT64 + 1) % (2 * (MAX_INT64 + 1)) - MAX_INT64 - 1
  }

  /** interval in nanoseconds, maxRate, and a bound on every reading of the clock. */
  datatype Config = Config(interval: int, maxRate: int, latest: int)

  ghost predicate ValidConfig(cfg: Config) {
    0 <= cfg.interval <= MAX_INT64 && 0 <= cfg.latest < SECOND
  }

  datatype Phase =
    | ReadClock
    | LoadStart(current: int)
    | Decide(current: int, start: int)
    | Swap(current: int, start: int)
    | Clear
    | Draw
    | Answered(admitted: bool)

  /** start and cnt are the two shared words. The others record the run: successful swaps, clears,
      draws and admissions. */
  datatype State = State(start: int, cnt: int, threads: seq<Phase>, swaps: nat, clears: nat, draws: nat, admitted: nat)

  datatype Step = Arrive | Tick(t: nat, clock: int) | Go(t: nat)

  function Init(): State {
    State(0, 0, [], 0, 0, 0, 0)
  }

  predicate Enabled(cfg: Config, s: State, step: Step) {
    match step
    case Arrive => true
    case Tick(t, clock) => t < |s.threads| && s.threads[t].ReadClock? && 0 <= clock <= cfg.latest
    case Go(t) => t < |s.threads| && !s.threads[t].ReadClock? && !s.threads[t].Answered?
  }

  function Apply(cfg: Config, s: State, step: Step): State
    requires Enabled(cfg, s, step)
  {
    match step
    case Arrive => s.(threads := s.threads + [ReadClock])
    case Tick(t, clock) => s.(threads := s.threads[t := LoadStart(clock)])
    case Go(t) => Advance(cfg, s, t)
  }

  /** The next atomic action of request t. */
  function Advance(cfg: Config, s: State, t: nat): State
    requires Enabled(cfg, s, Go(t))
  {
    match s.threads[t]
    case LoadStart(current) => s.(threads := s.threads[t := Decide(current, s.start)])
    case Decide(current, start) =>
      s.(threads := s.threads[t := if Wrap64(start + cfg.interval) < current then Swap(current, start) else Draw])
    case Swap(current, start) =>
      if s.start == start then
        s.(start := current, swaps := s.swaps + 1, threads := s.threads[t := Clear])
      else
        s.(threads := s.threads[t := Draw])
    case Clear => s.(cnt := 0, clears := s.clears + 1, threads := s.threads[t := Draw])
    case Draw =>
      var cnt := Wrap64(s.cnt + 1);
      var ok := cnt <= cfg.maxRate;
      s.(cnt := cnt, draws := s.draws + 1, admitted := if ok then s.admitted + 1 else s.admitted,
         threads := s.threads[t := Answered(ok)])
  }

  function Run(cfg: Config, steps: seq<Step>): Option<State>
    decreases |steps|
  {
    if steps == [] then Some(Init())
    else
      var last := |steps| - 1;
      match Run(cfg, steps[..last])
      case None => None
      case Some(s) => if Enabled(cfg, s, steps[last]) then Some(Apply(cfg, s, steps[last])) else None
  }

  function Max(x: int, y: int): int {
    if x < y then y else x
  }

  function Min(x: int, y: int): int {
    if x < y then x else y
  }

  /** How many of the numbers up to cnt are admitted. */
  function Filled(cfg: Config, cnt: int): int {
    Max(Min(cnt, cfg.maxRate), 0)
  }

  /** Requests between a successful swap and their clear. */
  ghost function Clearing(threads: seq<Phase>, n: nat): nat
    requires n <= |threads|
  {
    if n == 0 then 0 else Clearing(threads, n - 1) + if threads[n - 1].Clear? then 1 else 0
  }

  lemma {:induction false} ClearingUpdate(threads: seq<Phase>, t: nat, p: Phase, n: nat)
    requires n <= |threads| && t < |threads|
    ensures Clearing(threads[t := p], n) ==
      Clearing(threads, n) + if t < n then (if p.Clear? then 1 else 0) - (if threads[t].Clear? then 1 else 0) else 0
  {
    if n > 0 {
      ClearingUpdate(threads, t, p, n - 1);
    }
  }

  lemma {:induction false} ClearingPrefix(threads: seq<Phase>, more: seq<Phase>, n: nat)
    requires n <= |threads|
    ensures Clearing(threads + more, n) == Clearing(threads, n)
  {
    if n > 0 {
      ClearingPrefix(threads, more, n - 1);
    }
  }

  /** The window start is either the initial 0 or the result of a swap. */
  ghost predicate Moved(cfg: Config, start: int) {
    start == 0 || cfg.interval < start <= cfg.latest
  }

  ghost predicate PhaseInv(cfg: Config, s: State, p: Phase) {
    match p
    case LoadStart(current) => 0 <= current <= cfg.latest
    case Decide(current, start) => 0 <= current <= cfg.latest && Moved(cfg, start)
    case Swap(current, start) => 0 <= start && start + cfg.interval < current <= cfg.latest
    case _ => true
  }

  /** The window start, and what every request knows of it, is sound. */
  ghost predicate Tracked(cfg: Config, s: State) {
    Moved(cfg, s.start) && forall t :: 0 <= t < |s.threads| ==> PhaseInv(cfg, s, s.threads[t])
  }

  /** Every swap moved the start by more than the interval; every clear was paid for by a swap; and the
      admissions fit in the clears plus the numbers drawn since the last one. */
  ghost predicate Inv(cfg: Config, s: State) {
    && Tracked(cfg, s)
    && Times(s.swaps, cfg.interval + 1) <= s.start
    && s.clears + Clearing(s.threads, |s.threads|) == s.swaps
    && 0 <= s.cnt <= s.draws
    && s.admitted <= Times(s.clears, Max(cfg.maxRate, 0)) + Filled(cfg, s.cnt)
  }

  lemma Wrap64Fits(x: int)
    requires -MAX_INT64 - 1 <= x <= MAX_INT64
    ensures Wrap64(x) == x
  {
  }

  lemma SumFits(cfg: Config, start: int)
    requires ValidConfig(cfg) && Moved(cfg, start)
    ensures Wrap64(start + cfg.interval) == start + cfg.interval
  {
    Wrap64Fits(start + cfg.interval);
  }

  lemma StepKeepsPhase(cfg: Config, s: State, step: Step, u: nat)
    requires ValidConfig(cfg) && Enabled(cfg, s, step) && Tracked(cfg, s)
    requires u < |Apply(cfg, s, step).threads|
    ensures PhaseInv(cfg, Apply(cfg, s, step), Apply(cfg, s, step).threads[u])
  {
    hide Wrap64, Times, Clearing;
    if u < |s.threads| {
      assert PhaseInv(cfg, s, s.threads[u]);
      if s.threads[u].Decide? {
        SumFits(cfg, s.threads[u].start);
      }
    }
  }

  lemma StepKeepsTracked(cfg: Config, s: State, step: Step)
    requires ValidConfig(cfg) && Enabled(cfg, s, step) && Tracked(cfg, s)
    ensures Tracked(cfg, Apply(cfg, s, step))
  {
    hide Wrap64, Times;
    var r := Apply(cfg, s, step);
    if step.Go? {
      assert PhaseInv(cfg, s, s.threads[step.t]);
    }
    forall u: nat | u < |r.threads|
      ensures PhaseInv(cfg, r, r.threads[u])
    {
      StepKeepsPhase(cfg, s, step, u);
    }
  }

  lemma {:induction false} StaysTracked(cfg: Config, steps: seq<Step>)
    requires ValidConfig(cfg) && Run(cfg, steps).Some?
    ensures Tracked(cfg, Run(cfg, steps).value)
    decreases |steps|
  {
    if steps != [] {
      var last := |steps| - 1;
      StaysTracked(cfg, steps[..last]);
      StepKeepsTracked(cfg, Run(cfg, steps[..last]).value, steps[last]);
    }
  }

  lemma StepKeepsCounts(cfg: Config, s: State, step: Step)
    requires ValidConfig(cfg) && Enabled(cfg, s, step) && Inv(cfg, s)
    requires Apply(cfg, s, step).draws <= MAX_INT64
    ensures var r := Apply(cfg, s, step);
            && Times(r.swaps, cfg.interval + 1) <= r.start
            && 0 <= r.cnt <= r.draws
            && r.admitted <= Times(r.clears, Max(cfg.maxRate, 0)) + Filled(cfg, r.cnt)
  {
    hide Wrap64, Clearing;
    if step.Go? {
      assert PhaseInv(cfg, s, s.threads[step.t]);
      if s.threads[step.t].Draw? {
        Wrap64Fits(s.cnt + 1);
      }
    }
  }

  lemma StepKeepsInv(cfg: Config, s: State, step: Step)
    requires ValidConfig(cfg) && Enabled(cfg, s, step) && Inv(cfg, s)
    requires Apply(cfg, s, step).draws <= MAX_INT64
    ensures Inv(cfg, Apply(cfg, s, step))
  {
    hide Wrap64, Times, Filled, Tracked;
    var r := Apply(cfg, s, step);
    StepKeepsCounts(cfg, s, step);
    StepKeepsTracked(cfg, s, step);
    match step
    case Arrive => ClearingPrefix(s.threads, [ReadClock], |s.threads|);
    case Tick(t, clock) => ClearingUpdate(s.threads, t, r.threads[t], |s.threads|);
    case Go(t) => ClearingUpdate(s.threads, t, r.threads[t], |s.threads|);
  }

  lemma {:induction false} InvHolds(cfg: Config, steps: seq<Step>)
    requires ValidConfig(cfg) && Run(cfg, steps).Some? && Run(cfg, steps).value.draws <= MAX_INT64
    ensures Inv(cfg, Run(cfg, steps).value)
    decreases |steps|
  {
    if steps != [] {
      var last := |steps| - 1;
      InvHolds(cfg, steps[..last]);
      StepKeepsInv(cfg, Run(cfg, steps[..last]).value, steps[last]);
    }
  }

  /** In every interleaving, if no reading of the clock is beyond cfg.latest, the requests ever admitted
      are at most maxRate for each window that fits below it, plus maxRate for the first. The clock of
      this limiter never reaches one second, so this bounds its whole life. */
  lemma AdmittedBound(cfg: Config, steps: seq<Step>)
    requires ValidConfig(cfg) && Run(cfg, steps).Some? && Run(cfg, steps).value.draws <= MAX_INT64
    ensures Run(cfg, steps).value.admitted <= Max(cfg.maxRate, 0) * (1 + cfg.latest / (cfg.interval + 1))
  {
    InvHolds(cfg, steps);
    BoundArithmetic(cfg, Run(cfg, steps).value);
  }

  lemma BoundArithmetic(cfg: Config, s: State)
    requires ValidConfig(cfg) && Inv(cfg, s)
    ensures s.admitted <= Max(cfg.maxRate, 0) * (1 + cfg.latest / (cfg.interval + 1))
  {
    var d, r := cfg.interval + 1, Max(cfg.maxRate, 0);
    var q := cfg.latest / d;
    TimesIs(s.swaps, d);
    QuotientAtLeast(s.swaps, d, cfg.latest);
    TimesMonotone(s.clears, q, r);
    TimesIs(q + 1, r);
    assert (q + 1) * r == r * (1 + q);
  }

  lemma QuotientAtLeast(m: nat, d: int, x: int)
    requires d > 0 && m * d <= x
    ensures m <= x / d
  {
    var q := x / d;
    assert x == d * q + x % d;
    if m > q {
      TimesIs(m, d);
      TimesIs(q + 1, d);
      TimesMonotone(q + 1, m, d);
      assert false;
    }
  }

  /** With an interval that no reading of the clock exceeds, as every interval of a second or more, the
      window never moves again: the limiter admits maxRate requests in all, and then none for ever. */
  lemma LongWindowsNeverReopen(cfg: Config, steps: seq<Step>)
    requires ValidConfig(cfg) && cfg.interval >= cfg.latest
    requires Run(cfg, steps).Some? && Run(cfg, steps).value.draws <= MAX_INT64
    ensures Run(cfg, steps).value.swaps == 0 && Run(cfg, steps).value.start == 0
    ensures Run(cfg, steps).value.admitted == Min(Run(cfg, steps).value.draws, Max(cfg.maxRate, 0))
  {
    InvHolds(cfg, steps);
    NoSwapNoClear(cfg, steps);
  }

  lemma {:induction false} NoSwapNoClear(cfg: Config, steps: seq<Step>)
    requires ValidConfig(cfg) && cfg.interval >= cfg.latest
    requires Run(cfg, steps).Some? && Run(cfg, steps).value.draws <= MAX_INT64
    ensures var s := Run(cfg, steps).value;
            s.swaps == 0 && s.start == 0 && s.cnt == s.draws && s.admitted == Min(s.draws, Max(cfg.maxRate, 0))
    decreases |steps|
  {
    if steps != [] {
      var last := |steps| - 1;
      NoSwapNoClear(cfg, steps[..last]);
      InvHolds(cfg, steps[..last]);
      InvHolds(cfg, steps);
      QuietStep(cfg, Run(cfg, steps[..last]).value, steps[last]);
    }
  }

  lemma QuietStep(cfg: Config, s: State, step: Step)
    requires ValidConfig(cfg) && cfg.interval >= cfg.latest && Enabled(cfg, s, step)
    requires Inv(cfg, s) && Inv(cfg, Apply(cfg, s, step)) && Apply(cfg, s, step).draws <= MAX_INT64
    requires s.swaps == 0 && s.start == 0 && s.cnt == s.draws && s.admitted == Min(s.draws, Max(cfg.maxRate, 0))
    ensures var r := Apply(cfg, s, step);
            r.swaps == 0 && r.start == 0 && r.cnt == r.draws && r.admitted == Min(r.draws, Max(cfg.maxRate, 0))
  {
    OneSwapTooMany(cfg, Apply(cfg, s, step));
    NoClearing(s);
  }

  lemma OneSwapTooMany(cfg: Config, s: State)
    requires ValidConfig(cfg) && cfg.interval >= cfg.latest && Inv(cfg, s)
    ensures s.swaps == 0
  {
    if s.swaps > 0 {
      TimesMonotone(1, s.swaps, cfg.interval + 1);
      assert false;
    }
  }

  lemma NoClearing(s: State)
    requires Clearing(s.threads, |s.threads|) == 0
    ensures forall t :: 0 <= t < |s.threads| ==> !s.threads[t].Clear?
  {
    forall t | 0 <= t < |s.threads|
      ensures !s.threads[t].Clear?
    {
      if s.threads[t].Clear? {
        ClearingAtLeast(s.threads, |s.threads|, t);
        assert false;
      }
    }
  }

  lemma {:induction false} ClearingAtLeast(threads: seq<Phase>, n: nat, t: nat)
    requires t < n <= |threads| && threads[t].Clear?
    ensures Clearing(threads, n) >= 1
  {
    if t < n - 1 {
      ClearingAtLeast(threads, n - 1, t);
    }
  }

  // ----- One request at a time -----

  /** One request that nothing interrupts: the new window start, the new counter, and the verdict. */
  function Allow(cfg: Config, start: int, cnt: int, clock: int): (int, int, bool) {
    var moved := Wrap64(start + cfg.interval) < clock;
    var drawn := Wrap64((if moved then 0 else cnt) + 1);
    (if moved then clock else start, drawn, drawn <= cfg.maxRate)
  }

  function Remaining(p: Phase): nat {
    match p
    case ReadClock => 6
    case LoadStart(_) => 5
    case Decide(_, _) => 4
    case Swap(_, _) => 3
    case Clear => 2
    case Draw => 1
    case Answered(_) => 0
  }

  /** Request t, whose clock has been read, runs on alone to its verdict. */
  function Alone(cfg: Config, s: State, t: nat): State
    requires t < |s.threads| && !s.threads[t].ReadClock?
    decreases Remaining(s.threads[t])
  {
    if s.threads[t].Answered? then s else Alone(cfg, Advance(cfg, s, t), t)
  }

  /** The interleaved steps of an uninterrupted request add up to Allow. */
  lemma AloneIsAllow(cfg: Config, s: State, t: nat, clock: int)
    requires t < |s.threads| && s.threads[t] == LoadStart(clock)
    ensures var r, a := Alone(cfg, s, t), Allow(cfg, s.start, s.cnt, clock);
            && r.start == a.0 && r.cnt == a.1 && r.threads == s.threads[t := Answered(a.2)]
            && r.admitted == s.admitted + if a.2 then 1 else 0
  {
    hide Wrap64;
    var s1 := Advance(cfg, s, t);
    var s2 := Advance(cfg, s1, t);
    if s2.threads[t].Swap? {
      var s3 := Advance(cfg, s2, t);
      var s4 := Advance(cfg, s3, t);
      assert Alone(cfg, s4, t) == Advance(cfg, s4, t);
      assert Alone(cfg, s2, t) == Alone(cfg, s4, t);
    } else {
      assert Alone(cfg, s2, t) == Advance(cfg, s2, t);
    }
    assert Alone(cfg, s, t) == Alone(cfg, s1, t) == Alone(cfg, s2, t);
  }

  lemma {:induction false} AloneIsRun(cfg: Config, steps: seq<Step>, t: nat) returns (more: seq<Step>)
    requires Run(cfg, steps).Some? && t < |Run(cfg, steps).value.threads|
    requires !Run(cfg, steps).value.threads[t].ReadClock?
    ensures steps <= more && Run(cfg, more) == Some(Alone(cfg, Run(cfg, steps).value, t))
    decreases Remaining(Run(cfg, steps).value.threads[t])
  {
    hide Wrap64;
    more := steps;
    if !Run(cfg, steps).value.threads[t].Answered? {
      assert (steps + [Go(t)])[..|steps|] == steps;
      more := AloneIsRun(cfg, steps + [Go(t)], t);
    }
  }

  /** Whatever happened before, one more request can be served without interruption. */
  lemma ServeOne(cfg: Config, steps: seq<Step>, clock: int) returns (more: seq<Step>)
    requires Run(cfg, steps).Some? && 0 <= clock <= cfg.latest
    ensures steps <= more && Run(cfg, more).Some?
    ensures var s, r := Run(cfg, steps).value, Run(cfg, more).value;
            var a := Allow(cfg, s.start, s.cnt, clock);
            && r.start == a.0 && r.cnt == a.1 && r.draws == s.draws + 1
            && r.admitted == s.admitted + if a.2 then 1 else 0
  {
    hide Wrap64, Allow;
    var t := |Run(cfg, steps).value.threads|;
    var arrived := steps + [Arrive];
    assert arrived[..|steps|] == steps;
    var ticked := arrived + [Tick(t, clock)];
    assert ticked[..|arrived|] == arrived;
    var s := Run(cfg, steps).value;
    assert Run(cfg, arrived) == Some(s.(threads := s.threads + [ReadClock]));
    assert (s.threads + [ReadClock])[t := LoadStart(clock)] == s.threads + [LoadStart(clock)];
    assert Run(cfg, ticked) == Some(s.(threads := s.threads + [LoadStart(clock)]));
    AloneIsAllow(cfg, Run(cfg, ticked).value, t, clock);
    AloneDraws(cfg, Run(cfg, ticked).value, t);
    more := AloneIsRun(cfg, ticked, t);
  }

  lemma {:induction false} AloneDraws(cfg: Config, s: State, t: nat)
    requires t < |s.threads| && !s.threads[t].ReadClock? && !s.threads[t].Answered?
    ensures Alone(cfg, s, t).draws == s.draws + 1
    decreases Remaining(s.threads[t])
  {
    hide Wrap64;
    if !s.threads[t].Draw? {
      AloneDraws(cfg, Advance(cfg, s, t), t);
    } else {
      assert Alone(cfg, s, t) == Advance(cfg, s, t);
    }
  }

  /** More requests in a window that is not full yet are all admitted. */
  lemma {:induction false} FillWindow(cfg: Config, steps: seq<Step>, clock: int, m: nat) returns (more: seq<Step>)
    requires ValidConfig(cfg) && cfg.maxRate <= MAX_INT64 && Run(cfg, steps).Some?
    requires Moved(cfg, clock) && 0 <= clock <= cfg.latest
    requires var s := Run(cfg, steps).value; s.start == clock && 0 <= s.cnt && s.cnt + m <= cfg.maxRate
    ensures Run(cfg, more).Some?
    ensures var s, r := Run(cfg, steps).value, Run(cfg, more).value;
            r.start == clock && r.cnt == s.cnt + m && r.draws == s.draws + m && r.admitted == s.admitted + m
    decreases m
  {
    hide Wrap64, Run;
    more := steps;
    if m > 0 {
      var s := Run(cfg, steps).value;
      SumFits(cfg, clock);
      Wrap64Fits(s.cnt + 1);
      more := ServeOne(cfg, steps, clock);
      more := FillWindow(cfg, more, clock, m - 1);
    }
  }

  /** Windows 0 to k, each opened at the first possible instant and each admitting maxRate requests. */
  lemma {:induction false} FillWindows(cfg: Config, k: nat) returns (steps: seq<Step>)
    requires ValidConfig(cfg) && 0 < cfg.maxRate <= MAX_INT64 && Times(k, cfg.interval + 1) <= cfg.latest
    ensures Run(cfg, steps).Some?
    ensures var s := Run(cfg, steps).value;
            && s.start == Times(k, cfg.interval + 1) && s.cnt == cfg.maxRate
            && s.draws == s.admitted == Times(k + 1, cfg.maxRate)
    decreases k
  {
    hide Wrap64;
    if k == 0 {
      assert Times(1, cfg.maxRate) == cfg.maxRate by { TimesIs(1, cfg.maxRate); }
      steps := FillWindow(cfg, [], 0, cfg.maxRate);
    } else {
      var d := cfg.interval + 1;
      TimesMonotone(k - 1, k, d);
      TimesMonotone(0, k - 1, d);
      if k > 1 {
        TimesMonotone(1, k - 1, d);
      }
      steps := FillWindows(cfg, k - 1);
      SumFits(cfg, Times(k - 1, d));
      Wrap64Fits(1);
      steps := ServeOne(cfg, steps, Times(k, d));
      steps := FillWindow(cfg, steps, Times(k, d), cfg.maxRate - 1);
    }
  }

  /** The bound of AdmittedBound is exact: for every interval, every positive rate and every limit of the
      clock some run admits that many requests and rejects none. */
  lemma BoundIsAttained(cfg: Config) returns (steps: seq<Step>)
    requires ValidConfig(cfg) && 0 < cfg.maxRate <= MAX_INT64
    ensures Run(cfg, steps).Some?
    ensures Run(cfg, steps).value.draws == Run(cfg, steps).value.admitted
            == cfg.maxRate * (1 + cfg.latest / (cfg.interval + 1))
  {
    var d := cfg.interval + 1;
    var q := cfg.latest / d;
    assert q >= 0 && q * d <= cfg.latest;
    TimesIs(q, d);
    steps := FillWindows(cfg, q);
    TimesIs(q + 1, cfg.maxRate);
    assert (q + 1) * cfg.maxRate == cfg.maxRate * (1 + q);
  }

  ghost predicate Reopens(cfg: Config, steps: seq<Step>, more: seq<Step>)
    requires Run(cfg, steps).Some?
  {
    steps <= more && Run(cfg, more).Some? && Run(cfg, more).value.start != Run(cfg, steps).value.start
  }

  /** After any run, with whatever requests still under way, the window can reopen exactly when the clock
      has readings beyond the end of the present one. */
  lemma ReopensIff(cfg: Config, steps: seq<Step>)
    requires ValidConfig(cfg) && Run(cfg, steps).Some?
    ensures (exists more :: Reopens(cfg, steps, more)) <==> Run(cfg, steps).value.start + cfg.interval < cfg.latest
  {
    hide Run, Wrap64;
    StaysTracked(cfg, steps);
    var start := Run(cfg, steps).value.start;
    if start + cfg.interval < cfg.latest {
      SumFits(cfg, start);
      var more := ServeOne(cfg, steps, cfg.latest);
      assert Reopens(cfg, steps, more);
    } else if more :| Reopens(cfg, steps, more) {
      OnlyLaterReadingsMove(cfg, steps, more);
      assert false;
    }
  }

  lemma {:induction false} OnlyLaterReadingsMove(cfg: Config, steps: seq<Step>, more: seq<Step>)
    requires ValidConfig(cfg) && Run(cfg, steps).Some? && steps <= more && Run(cfg, more).Some?
    ensures var start := Run(cfg, steps).value.start;
            Run(cfg, more).value.start == start || start + cfg.interval < cfg.latest
    decreases |more|
  {
    hide Wrap64;
    if |more| == |steps| {
      assert more == steps;
    } else {
      var last := |more| - 1;
      OnlyLaterReadingsMove(cfg, steps, more[..last]);
      StaysTracked(cfg, more[..last]);
      if more[last].Go? {
        var s := Run(cfg, more[..last]).value;
        assert PhaseInv(cfg, s, s.threads[more[last].t]);
      }
    }
  }

  /** The limiter's two words after n requests at the given times, one after the other. */
  ghost function Words(cfg: Config, clocks: seq<int>, n: nat): (int, int)
    requires n <= |clocks|
  {
    if n == 0 then (0, 0)
    else
      var w := Words(cfg, clocks, n - 1);
      var a := Allow(cfg, w.0, w.1, clocks[n - 1]);
      (a.0, a.1)
  }

  ghost predicate Admits(cfg: Config, clocks: seq<int>, n: nat)
    requires n < |clocks|
  {
    Allow(cfg, Words(cfg, clocks, n).0, Words(cfg, clocks, n).1, clocks[n]).2
  }

  /** How many of the requests i, i+1, ..., j-1 are admitted. */
  ghost function AdmittedIn(cfg: Config, clocks: seq<int>, i: nat, j: nat): nat
    requires i <= j <= |clocks|
  {
    if i == j then 0 else AdmittedIn(cfg, clocks, i, j - 1) + if Admits(cfg, clocks, j - 1) then 1 else 0
  }

  ghost predicate Readings(cfg: Config, clocks: seq<int>) {
    |clocks| <= MAX_INT64 && forall n :: 0 <= n < |clocks| ==> 0 <= clocks[n] <= cfg.latest
  }

  /** What the limiter reads at the given times, in nanoseconds, of a clock that does not go back: only
      the part within the second, which starts again at 0 with every second. */
  ghost predicate ReadAt(clocks: seq<int>, times: seq<int>) {
    && |clocks| == |times|
    && (forall n :: 0 <= n < |times| ==> clocks[n] == times[n] % SECOND)
    && forall m, n :: 0 <= m <= n < |times| ==> times[m] <= times[n]
  }

  /** Requests one after the other are a run of the interleaved steps: what is proved of every run holds
      of them. */
  lemma {:induction false} OneByOneIsRun(cfg: Config, clocks: seq<int>, n: nat) returns (steps: seq<Step>)
    requires Readings(cfg, clocks) && n <= |clocks|
    ensures Run(cfg, steps).Some?
    ensures var s := Run(cfg, steps).value;
            (s.start, s.cnt) == Words(cfg, clocks, n) && s.draws == n && s.admitted == AdmittedIn(cfg, clocks, 0, n)
    decreases n
  {
    hide Allow;
    steps := [];
    if n > 0 {
      steps := OneByOneIsRun(cfg, clocks, n - 1);
      steps := ServeOne(cfg, steps, clocks[n - 1]);
    }
  }

  lemma {:induction false} WordsInRange(cfg: Config, clocks: seq<int>, n: nat)
    requires ValidConfig(cfg) && Readings(cfg, clocks) && n <= |clocks|
    ensures Moved(cfg, Words(cfg, clocks, n).0) && 0 <= Words(cfg, clocks, n).1 <= n
  {
    hide Wrap64;
    if n > 0 {
      WordsInRange(cfg, clocks, n - 1);
      var w := Words(cfg, clocks, n - 1);
      SumFits(cfg, w.0);
      Wrap64Fits(w.1 + 1);
      Wrap64Fits(1);
    }
  }

  /** The window that request n falls in, from the readings alone: the first of its requests, and its start.
      The first window starts at 0; a request that reads more than one interval beyond the start of the
      window opens the next. */
  ghost function Opened(cfg: Config, clocks: seq<int>, n: nat): (nat, int)
    requires n < |clocks|
  {
    var before := if n == 0 then (0, 0) else Opened(cfg, clocks, n - 1);
    if clocks[n] > before.1 + cfg.interval then (n, clocks[n]) else before
  }

  /** The answer: of requests made one at a time exactly the first maxRate of every window are admitted. */
  lemma {:induction false} AdmittedIff(cfg: Config, clocks: seq<int>, n: nat)
    requires ValidConfig(cfg) && Readings(cfg, clocks) && n < |clocks|
    ensures Opened(cfg, clocks, n).0 <= n
    ensures Words(cfg, clocks, n + 1) == (Opened(cfg, clocks, n).1, n + 1 - Opened(cfg, clocks, n).0)
    ensures Admits(cfg, clocks, n) <==> n - Opened(cfg, clocks, n).0 < cfg.maxRate
  {
    hide Allow, Moved;
    if n > 0 {
      AdmittedIff(cfg, clocks, n - 1);
    }
    WordsInRange(cfg, clocks, n);
    var w := Words(cfg, clocks, n);
    MovedFits(cfg, w.0);
    AllowFits(cfg, w.0, w.1, clocks[n]);
  }

  lemma MovedFits(cfg: Config, start: int)
    requires ValidConfig(cfg) && Moved(cfg, start)
    ensures 0 <= start + cfg.interval <= MAX_INT64
  {
  }

  /** Readings move apart no faster than time passes; when the second ends they even move back. */
  lemma ReadingsLag(a: int, b: int)
    requires a <= b
    ensures b % SECOND - a % SECOND <= b - a
  {
  }

  /** Without overflow one request does what it says. */
  lemma AllowFits(cfg: Config, start: int, cnt: int, clock: int)
    requires 0 <= start + cfg.interval <= MAX_INT64 && 0 <= cnt < MAX_INT64
    ensures var moved := start + cfg.interval < clock;
            var drawn := (if moved then 0 else cnt) + 1;
            Allow(cfg, start, cnt, clock) == (if moved then clock else start, drawn, drawn <= cfg.maxRate)
  {
    hide Wrap64;
    Wrap64Fits(start + cfg.interval);
    Wrap64Fits(cnt + 1);
    Wrap64Fits(1);
  }

  /** One request: what it admits is what the counter gains, starting again if the window changes. */
  lemma FilledStep(cfg: Config, start: int, cnt: int, clock: int)
    requires ValidConfig(cfg) && Moved(cfg, start) && 0 <= cnt < MAX_INT64
    ensures var a, moved := Allow(cfg, start, cnt, clock), start + cfg.interval < clock;
            && a.0 == (if moved then clock else start)
            && Filled(cfg, a.1) == (if moved then 0 else Filled(cfg, cnt)) + if a.2 then 1 else 0
    ensures 0 <= Filled(cfg, cnt) <= Max(cfg.maxRate, 0)
  {
    hide Allow;
    AllowFits(cfg, start, cnt, clock);
  }

  /** Up to request j either all that the span admitted fits in the counter, or the window changed at one
      request m of the span, and it fits in the counter plus one full window. */
  lemma {:induction false} OneChangeAtMost(cfg: Config, clocks: seq<int>, times: seq<int>, i: nat, j: nat)
      returns (m: nat)
    requires ValidConfig(cfg) && Readings(cfg, clocks) && ReadAt(clocks, times) && i <= j <= |clocks|
    requires i < j ==> times[j - 1] - times[i] <= cfg.interval
    ensures var w, r, a := Words(cfg, clocks, j), Max(cfg.maxRate, 0), AdmittedIn(cfg, clocks, i, j);
            || a <= Filled(cfg, w.1)
            || (i <= m < j && w.0 == clocks[m] && a <= r + Filled(cfg, w.1))
  {
    hide Allow, Filled, Moved;
    m := j;
    if i == j {
      WordsInRange(cfg, clocks, j);
      FilledAtLeast(cfg, Words(cfg, clocks, j).1);
    } else {
      m := OneChangeAtMost(cfg, clocks, times, i, j - 1);
      WordsInRange(cfg, clocks, j - 1);
      var w := Words(cfg, clocks, j - 1);
      FilledStep(cfg, w.0, w.1, clocks[j - 1]);
      if i <= m < j - 1 && w.0 == clocks[m] {
        ReadingsLag(times[m], times[j - 1]);
      } else {
        m := j - 1;
      }
    }
  }

  lemma FilledAtLeast(cfg: Config, cnt: int)
    ensures 0 <= Filled(cfg, cnt) <= Max(cfg.maxRate, 0)
  {
  }

  /** Requests handled one at a time: any span of one interval admits at most twice maxRate, over the
      whole life of the limiter and through every second that its clock starts again. */
  lemma TwicePerInterval(cfg: Config, clocks: seq<int>, times: seq<int>, i: nat, j: nat)
    requires ValidConfig(cfg) && Readings(cfg, clocks) && ReadAt(clocks, times) && i < j <= |clocks|
    requires times[j - 1] - times[i] <= cfg.interval
    ensures AdmittedIn(cfg, clocks, i, j) <= 2 * Max(cfg.maxRate, 0)
  {
    var m := OneChangeAtMost(cfg, clocks, times, i, j);
    FilledAtLeast(cfg, Words(cfg, clocks, j).1);
  }

  /** r requests at the last instant of the first window, then k at the first instant after it. */
  ghost function Burst(cfg: Config, r: nat, k: nat): (clocks: seq<int>)
    ensures |clocks| == r + k
  {
    seq(r + k, i => if i < r then cfg.interval else cfg.interval + 1)
  }

  lemma {:induction false} BurstPasses(cfg: Config, r: nat, k: nat, n: nat)
    requires ValidConfig(cfg) && cfg.maxRate == r && k <= r && r + k <= MAX_INT64 && n <= r + k
    requires cfg.interval < cfg.latest
    ensures Words(cfg, Burst(cfg, r, k), n) == if n <= r then (0, n) else (cfg.interval + 1, n - r)
    ensures AdmittedIn(cfg, Burst(cfg, r, k), 0, n) == n
  {
    hide Allow;
    if n > 0 {
      BurstPasses(cfg, r, k, n - 1);
      var w := Words(cfg, Burst(cfg, r, k), n - 1);
      AllowFits(cfg, w.0, w.1, Burst(cfg, r, k)[n - 1]);
    }
  }

  /** The factor two is attained, for every rate and every interval below the clock's limit, in a span of
      a single nanosecond. */
  lemma TwiceIsAttained(cfg: Config, r: nat)
    requires ValidConfig(cfg) && cfg.maxRate == r > 0 && cfg.interval < cfg.latest && 2 * r <= MAX_INT64
    ensures var clocks := Burst(cfg, r, r);
            && Readings(cfg, clocks) && ReadAt(clocks, clocks)
            && clocks[2 * r - 1] - clocks[0] == 1
            && AdmittedIn(cfg, clocks, 0, 2 * r) == 2 * cfg.maxRate
  {
    BurstPasses(cfg, r, r, 2 * r);
  }

  /** Requests i to j-1, made one at a time within one interval, of which no more than maxRate pass. */
  ghost predicate KeepsRate(cfg: Config, clocks: seq<int>, times: seq<int>, i: nat, j: nat) {
    Readings(cfg, clocks) && ReadAt(clocks, times) && i < j <= |clocks| && times[j - 1] - times[i] <= cfg.interval
    ==> AdmittedIn(cfg, clocks, i, j) <= Max(cfg.maxRate, 0)
  }

  ghost predicate CannotExceed(cfg: Config) {
    cfg.interval >= cfg.latest || cfg.interval == 0 || cfg.maxRate <= 0 || cfg.maxRate >= MAX_INT64
  }

  /** The rate itself is kept in every span of one interval only by a limiter whose window never reopens,
      one whose spans are single instants, or one that has nothing to limit: a rate not above 0, or above
      all the requests there can be. */
  lemma KeepsRateIff(cfg: Config)
    requires ValidConfig(cfg)
    ensures (forall clocks, times, i, j :: KeepsRate(cfg, clocks, times, i, j))
       <==> CannotExceed(cfg)
  {
    if CannotExceed(cfg) {
      forall clocks, times, i, j
        ensures KeepsRate(cfg, clocks, times, i, j)
      {
        SurelyKeepsRate(cfg, clocks, times, i, j);
      }
    } else {
      var r: nat := cfg.maxRate;
      var clocks := Burst(cfg, r, 1);
      BurstPasses(cfg, r, 1, r + 1);
      assert !KeepsRate(cfg, clocks, clocks, 0, r + 1);
    }
  }

  lemma SurelyKeepsRate(cfg: Config, clocks: seq<int>, times: seq<int>, i: nat, j: nat)
    requires ValidConfig(cfg) && CannotExceed(cfg)
    ensures KeepsRate(cfg, clocks, times, i, j)
  {
    if Readings(cfg, clocks) && ReadAt(clocks, times) && i < j <= |clocks|
       && times[j - 1] - times[i] <= cfg.interval {
      PartOfAll(cfg, clocks, i, j);
      if cfg.interval >= cfg.latest {
        var steps := OneByOneIsRun(cfg, clocks, j);
        LongWindowsNeverReopen(cfg, steps);
      } else if cfg.interval == 0 {
        SameInstant(cfg, clocks, times, i, j);
        FilledAtLeast(cfg, Words(cfg, clocks, j).1);
      } else if cfg.maxRate <= 0 {
        TwicePerInterval(cfg, clocks, times, i, j);
      }
    }
  }

  /** Requests of one instant change the window at most before the first of them. */
  lemma {:induction false} SameInstant(cfg: Config, clocks: seq<int>, times: seq<int>, i: nat, j: nat)
    requires ValidConfig(cfg) && Readings(cfg, clocks) && ReadAt(clocks, times) && i < j <= |clocks|
    requires times[j - 1] == times[i]
    ensures AdmittedIn(cfg, clocks, i, j) <= Filled(cfg, Words(cfg, clocks, j).1)
    ensures clocks[j - 1] <= Words(cfg, clocks, j).0 + cfg.interval
  {
    hide Allow, Filled, Moved;
    WordsInRange(cfg, clocks, j - 1);
    var w := Words(cfg, clocks, j - 1);
    FilledStep(cfg, w.0, w.1, clocks[j - 1]);
    assert AdmittedIn(cfg, clocks, j - 1, j - 1) == 0;
    if i < j - 1 {
      SameInstant(cfg, clocks, times, i, j - 1);
    }
  }

  lemma {:induction false} PartOfAll(cfg: Config, clocks: seq<int>, i: nat, j: nat)
    requires i <= j <= |clocks|
    ensures AdmittedIn(cfg, clocks, i, j) <= AdmittedIn(cfg, clocks, 0, j) <= j
  {
    hide Admits;
    if i < j {
      PartOfAll(cfg, clocks, i, j - 1);
    } else if j > 0 {
      PartOfAll(cfg, clocks, i - 1, j - 1);
    }
  }

  class FixWindowLimiter {
    const cfg: Config
    var latestWindowStartTimestamp: int
    var cnt: int

    constructor (cfg: Config)
      ensures this.cfg == cfg && latestWindowStartTimestamp == 0 && cnt == 0
    {
      this.cfg := cfg;
      latestWindowStartTimestamp, cnt := 0, 0;
    }

    /** The interceptor without interference: true when the handler runs, false when onReject does. */
    method Intercept(clock: int) returns (ok: bool)
      modifies this
      ensures (latestWindowStartTimestamp, cnt, ok) == Allow(cfg, old(latestWindowStartTimestamp), old(cnt), clock)
    {
      var windowStart := latestWindowStartTimestamp;
      if Wrap64(windowStart + cfg.interval) < clock {
        if latestWindowStartTimestamp == windowStart {
          latestWindowStartTimestamp := clock;
          cnt := 0;
        }
      }
      cnt := Wrap64(cnt + 1);
      ok := cnt <= cfg.maxRate;
    }
  }
}
