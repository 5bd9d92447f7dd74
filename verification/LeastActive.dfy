/**
 The least-active picker of loadbalance/leastactive/picker.go. A Pick scans the connections with
 atomic loads and then adds to the smallest counter it saw; nothing keeps other picks from adding in
 between. The model has a step for each atomic operation and lets at most k picks be between their
 start and their add at any time. The property: the counters then never drift apart by more than k.
 */
module LeastActive {
  import opened Prelude

  const MAX_UINT32: uint32 := 0xFFFF_FFFF

  /** The fixed parameters of a run: which connections the filter accepts, and how many picks may be
      between start and add at once. */
  datatype Config = Config(on: seq<bool>, k: nat)

  /** A pick under way: the next connection to load, and the scan's two variables. */
  datatype Pick = Pick(i: nat, res: Option<nat>, least: uint32)

  /** active holds the counters, held the number of calls handed out and not yet done per connection, fin
      the number of those done, picks the picks under way by name, adds the number of adds so far. */
  datatype State = State(active: seq<uint32>, held: seq<nat>, fin: seq<nat>, picks: map<nat, Pick>, adds: nat)

  datatype Step =
    | Start(p: nat)
    | Skip(p: nat)
    | Load(p: nat)
    | GiveUp(p: nat)
    | Add(p: nat)
    | Done(conn: nat)

  function Init(cfg: Config): State {
    State(seq(|cfg.on|, i => 0), seq(|cfg.on|, i => 0), seq(|cfg.on|, i => 0), map[], 0)
  }

  ghost predicate Shaped(cfg: Config, s: State) {
    && |s.active| == |s.held| == |s.fin| == |cfg.on|
    && forall p :: p in s.picks ==>
         && s.picks[p].i <= |cfg.on|
         && (s.picks[p].res.Some? ==> s.picks[p].res.value < |cfg.on| && cfg.on[s.picks[p].res.value])
  }

  ghost predicate Enabled(cfg: Config, s: State, step: Step)
    requires Shaped(cfg, s)
  {
    match step
    case Start(p) => p !in s.picks && |s.picks| < cfg.k
    case Skip(p) => p in s.picks && s.picks[p].i < |cfg.on| && !cfg.on[s.picks[p].i]
    case Load(p) => p in s.picks && s.picks[p].i < |cfg.on| && cfg.on[s.picks[p].i]
    case GiveUp(p) => p in s.picks && s.picks[p].i == |cfg.on| && s.picks[p].res.None?
    case Add(p) => p in s.picks && s.picks[p].i == |cfg.on| && s.picks[p].res.Some?
    case Done(c) => c < |cfg.on| && s.held[c] > 0
  }

  ghost function Apply(cfg: Config, s: State, step: Step): State
    requires Shaped(cfg, s) && Enabled(cfg, s, step)
  {
    match step
    case Start(p) => s.(picks := s.picks[p := Pick(0, None, MAX_UINT32)])
    case Skip(p) => s.(picks := s.picks[p := s.picks[p].(i := s.picks[p].i + 1)])
    case Load(p) =>
      var pick := s.picks[p];
      var seen := s.active[pick.i];
      s.(picks := s.picks[p := if seen < pick.least then Pick(pick.i + 1, Some(pick.i), seen)
                               else pick.(i := pick.i + 1)])
    case GiveUp(p) => s.(picks := s.picks - {p})
    case Add(p) =>
      var c := s.picks[p].res.value;
      s.(active := s.active[c := Wrap32((s.active[c] as int) + 1)], held := s.held[c := s.held[c] + 1],
         picks := s.picks - {p}, adds := s.adds + 1)
    case Done(c) =>
      s.(active := s.active[c := Wrap32((s.active[c] as int) - 1)], held := s.held[c := s.held[c] - 1],
         fin := s.fin[c := s.fin[c] + 1])
  }

  lemma StaysShaped(cfg: Config, s: State, step: Step)
    requires Shaped(cfg, s) && Enabled(cfg, s, step)
    ensures Shaped(cfg, Apply(cfg, s, step))
  {
  }

  ghost function Run(cfg: Config, steps: seq<Step>): (r: Option<State>)
    ensures r.Some? ==> Shaped(cfg, r.value)
    decreases |steps|
  {
    if steps == [] then Some(Init(cfg))
    else
      var last := |steps| - 1;
      match Run(cfg, steps[..last])
      case None => None
      case Some(s) =>
        if Enabled(cfg, s, steps[last]) then
          StaysShaped(cfg, s, steps[last]);
          Some(Apply(cfg, s, steps[last]))
        else None
  }

  /** No Done callback has run. */
  ghost predicate PicksOnly(steps: seq<Step>) {
    forall i :: 0 <= i < |steps| ==> !steps[i].Done?
  }

  // ----- Counters count the calls handed out -----

  ghost predicate Counted(s: State) {
    |s.active| == |s.held| && forall c :: 0 <= c < |s.active| ==> s.active[c] == Wrap32(s.held[c])
  }

  lemma StepKeepsCounted(cfg: Config, s: State, step: Step)
    requires Shaped(cfg, s) && Enabled(cfg, s, step) && Counted(s)
    ensures Counted(Apply(cfg, s, step))
  {
    hide Wrap32;
    if step.Add? {
      WrapAbsorb(s.held[s.picks[step.p].res.value], 1);
    } else if step.Done? {
      WrapAbsorb(s.held[step.conn], -1);
    }
  }

  /** In every interleaving of picks and callbacks a counter is, modulo 2^32, the number of calls that
      its connection has been given and has not finished. */
  lemma {:induction false} CountsOutstanding(cfg: Config, steps: seq<Step>)
    requires Run(cfg, steps).Some?
    ensures Counted(Run(cfg, steps).value)
    decreases |steps|
  {
    hide Apply, Enabled, Wrap32;
    if steps == [] {
      WrapZero();
    } else {
      var last := |steps| - 1;
      CountsOutstanding(cfg, steps[..last]);
      StepKeepsCounted(cfg, Run(cfg, steps[..last]).value, steps[last]);
    }
  }

  // ----- How far the counters drift apart -----

  /** The calls that connection y has ever been given, while its counter has not wrapped. */
  ghost function Begun(cfg: Config, s: State, y: nat): int
    requires Shaped(cfg, s) && y < |cfg.on|
  {
    s.active[y] + s.fin[y]
  }

  /** The picks that have X as their choice so far, having seen at most m there. */
  ghost function Aiming(s: State, x: nat, m: int): set<nat> {
    set p | p in s.picks && s.picks[p].res == Some(x) && s.picks[p].least <= m
  }

  /** Some accepted connection has been given at most m calls. */
  ghost predicate Reached(cfg: Config, s: State, m: int)
    requires Shaped(cfg, s)
  {
    exists y :: 0 <= y < |cfg.on| && cfg.on[y] && Begun(cfg, s, y) <= m
  }

  /** What a pick has seen is at most what has been given out since: callbacks lower a counter, but not the
      number of calls begun. */
  ghost predicate SeenIsOld(cfg: Config, s: State)
    requires Shaped(cfg, s)
  {
    forall p, y :: p in s.picks && 0 <= y < s.picks[p].i && cfg.on[y] ==> s.picks[p].least <= Begun(cfg, s, y)
  }

  /** How far X stands above a level m that some connection has not been given yet, plus the picks that may
      still raise X although they saw it at m or below, is at most k. */
  ghost predicate Lead(cfg: Config, s: State, x: nat, m: int) {
    x < |s.active| && m < s.active[x] ==> s.active[x] - m + |Aiming(s, x, m)| <= cfg.k
  }

  /** No counter has wrapped. */
  ghost predicate Exact(cfg: Config, s: State)
    requires Shaped(cfg, s)
  {
    s.adds <= MAX_UINT32 && forall c :: 0 <= c < |cfg.on| ==> s.active[c] == s.held[c] <= s.adds
  }

  ghost predicate Inv(cfg: Config, s: State)
    requires Shaped(cfg, s)
  {
    && |s.picks| <= cfg.k
    && Exact(cfg, s)
    && SeenIsOld(cfg, s)
    && (forall x, m :: 0 <= x < |cfg.on| && cfg.on[x] && Reached(cfg, s, m) ==> Lead(cfg, s, x, m))
  }

  lemma StepKeepsExact(cfg: Config, s: State, step: Step)
    requires Shaped(cfg, s) && Exact(cfg, s) && Enabled(cfg, s, step)
    requires Apply(cfg, s, step).adds <= MAX_UINT32
    ensures Shaped(cfg, Apply(cfg, s, step)) && Exact(cfg, Apply(cfg, s, step))
    ensures forall c :: 0 <= c < |cfg.on| ==>
      Begun(cfg, s, c) <= Begun(cfg, Apply(cfg, s, step), c)
      <= Begun(cfg, s, c) + if step.Add? && s.picks[step.p].res == Some(c) then 1 else 0
  {
  }

  lemma LevelWasReached(cfg: Config, s: State, step: Step, m: int)
    requires Shaped(cfg, s) && Exact(cfg, s) && Enabled(cfg, s, step)
    requires Apply(cfg, s, step).adds <= MAX_UINT32 && Shaped(cfg, Apply(cfg, s, step))
    requires Reached(cfg, Apply(cfg, s, step), m)
    ensures Reached(cfg, s, m)
  {
    hide Apply, Enabled, Exact;
    StepKeepsExact(cfg, s, step);
    var y :| 0 <= y < |cfg.on| && cfg.on[y] && Begun(cfg, Apply(cfg, s, step), y) <= m;
    assert Begun(cfg, s, y) <= m;
  }

  lemma AimingShrinks(s: State, r: State, x: nat, m: int)
    requires forall p :: p in Aiming(r, x, m) ==> p in Aiming(s, x, m)
    ensures |Aiming(r, x, m)| <= |Aiming(s, x, m)|
  {
    SubsetSize(Aiming(r, x, m), Aiming(s, x, m));
  }

  /** The adder saw no more than any connection has been given, so it is one of those that aimed at X. */
  lemma AdderAimed(cfg: Config, s: State, p: nat, x: nat, m: int)
    requires Shaped(cfg, s) && SeenIsOld(cfg, s) && Enabled(cfg, s, Add(p)) && s.picks[p].res == Some(x)
    requires Reached(cfg, s, m)
    ensures p in Aiming(s, x, m)
    ensures |Aiming(Apply(cfg, s, Add(p)), x, m)| == |Aiming(s, x, m)| - 1
  {
    var y :| 0 <= y < |cfg.on| && cfg.on[y] && Begun(cfg, s, y) <= m;
    assert Aiming(Apply(cfg, s, Add(p)), x, m) == Aiming(s, x, m) - {p};
  }

  /** Whoever aims at X after the add is one of the other picks. */
  lemma AimingLeavesRoom(cfg: Config, s: State, p: nat, x: nat, m: int)
    requires Shaped(cfg, s) && Enabled(cfg, s, Add(p)) && |s.picks| <= cfg.k
    ensures |Aiming(Apply(cfg, s, Add(p)), x, m)| <= cfg.k - 1
  {
    var r := Apply(cfg, s, Add(p));
    SubsetSize(Aiming(r, x, m), r.picks.Keys);
    assert r.picks.Keys == s.picks.Keys - {p};
  }

  /** The one step that raises a counter. */
  lemma AddKeepsLead(cfg: Config, s: State, p: nat, m: int)
    requires Shaped(cfg, s) && Inv(cfg, s) && Enabled(cfg, s, Add(p)) && s.adds < MAX_UINT32
    requires Reached(cfg, s, m)
    ensures Lead(cfg, Apply(cfg, s, Add(p)), s.picks[p].res.value, m)
  {
    hide Reached, SeenIsOld, Begun, Aiming;
    var x := s.picks[p].res.value;
    if m < s.active[x] {
      AdderAimed(cfg, s, p, x, m);
      assert Lead(cfg, s, x, m);
    } else {
      AimingLeavesRoom(cfg, s, p, x, m);
    }
  }

  /** The other steps, and the other connections, raise nothing. */
  lemma OthersKeepLead(cfg: Config, s: State, step: Step, x: nat, m: int)
    requires Shaped(cfg, s) && Exact(cfg, s) && Enabled(cfg, s, step) && Lead(cfg, s, x, m) && x < |cfg.on|
    requires step.Load? ==> m < s.active[x]
    requires !(step.Add? && s.picks[step.p].res == Some(x))
    ensures Lead(cfg, Apply(cfg, s, step), x, m)
  {
    var r := Apply(cfg, s, step);
    assert r.active[x] <= s.active[x];
    if m < s.active[x] {
      AimingShrinks(s, r, x, m);
    }
  }

  lemma StepKeepsLead(cfg: Config, s: State, step: Step, x: nat, m: int)
    requires Shaped(cfg, s) && Inv(cfg, s) && Enabled(cfg, s, step)
    requires Apply(cfg, s, step).adds <= MAX_UINT32 && Shaped(cfg, Apply(cfg, s, step))
    requires x < |cfg.on| && cfg.on[x] && Reached(cfg, Apply(cfg, s, step), m)
    ensures Lead(cfg, Apply(cfg, s, step), x, m)
  {
    LevelWasReached(cfg, s, step, m);
    hide Reached, SeenIsOld, Begun, Aiming;
    assert Lead(cfg, s, x, m);
    if step.Add? && s.picks[step.p].res == Some(x) {
      AddKeepsLead(cfg, s, step.p, m);
    } else if step.Load? ==> m < s.active[x] {
      OthersKeepLead(cfg, s, step, x, m);
    }
  }

  lemma StepKeepsSeenOld(cfg: Config, s: State, step: Step)
    requires Shaped(cfg, s) && Inv(cfg, s) && Enabled(cfg, s, step)
    requires Apply(cfg, s, step).adds <= MAX_UINT32 && Shaped(cfg, Apply(cfg, s, step))
    ensures SeenIsOld(cfg, Apply(cfg, s, step))
  {
    hide Lead, Reached;
    StepKeepsExact(cfg, s, step);
    var r := Apply(cfg, s, step);
    forall p, y | p in r.picks && 0 <= y < r.picks[p].i && cfg.on[y]
      ensures r.picks[p].least <= Begun(cfg, r, y)
    {
      if p in s.picks {
        assert y < s.picks[p].i ==> s.picks[p].least <= Begun(cfg, s, y);
      }
    }
  }

  lemma StepKeepsRoom(cfg: Config, s: State, step: Step)
    requires Shaped(cfg, s) && |s.picks| <= cfg.k && Enabled(cfg, s, step)
    ensures |Apply(cfg, s, step).picks| <= cfg.k
  {
    var r := Apply(cfg, s, step);
    if step.Start? {
      assert r.picks.Keys == s.picks.Keys + {step.p};
    } else if step.GiveUp? || step.Add? {
      SubsetSize(r.picks.Keys, s.picks.Keys);
    } else {
      assert r.picks.Keys == s.picks.Keys;
    }
  }

  lemma StepKeepsInv(cfg: Config, s: State, step: Step)
    requires Shaped(cfg, s) && Inv(cfg, s) && Enabled(cfg, s, step)
    requires Apply(cfg, s, step).adds <= MAX_UINT32
    ensures Shaped(cfg, Apply(cfg, s, step)) && Inv(cfg, Apply(cfg, s, step))
  {
    hide Apply, Enabled, Shaped, Lead, Reached, SeenIsOld, Exact;
    var r := Apply(cfg, s, step);
    StaysShaped(cfg, s, step);
    StepKeepsRoom(cfg, s, step);
    StepKeepsExact(cfg, s, step);
    StepKeepsSeenOld(cfg, s, step);
    forall x: nat, m | x < |cfg.on| && cfg.on[x] && Reached(cfg, r, m)
      ensures Lead(cfg, r, x, m)
    {
      StepKeepsLead(cfg, s, step, x, m);
    }
  }

  lemma AddsGrow(cfg: Config, s: State, step: Step)
    requires Shaped(cfg, s) && Enabled(cfg, s, step)
    ensures s.adds <= Apply(cfg, s, step).adds
  {
  }

  lemma {:induction false} InvHolds(cfg: Config, steps: seq<Step>)
    requires Run(cfg, steps).Some? && Run(cfg, steps).value.adds <= MAX_UINT32
    ensures Inv(cfg, Run(cfg, steps).value)
    decreases |steps|
  {
    if steps == [] {
      InvAtStart(cfg);
    } else {
      hide Apply, Enabled, Inv;
      var last := |steps| - 1;
      AddsGrow(cfg, Run(cfg, steps[..last]).value, steps[last]);
      InvHolds(cfg, steps[..last]);
      StepKeepsInv(cfg, Run(cfg, steps[..last]).value, steps[last]);
    }
  }

  lemma InvAtStart(cfg: Config)
    ensures Shaped(cfg, Init(cfg)) && Inv(cfg, Init(cfg))
  {
  }

  /** The picker's inaccuracy. In every interleaving of picks and callbacks, with at most k picks under way
      at once, over one set of candidates and up to 2^32-1 picks, a counter exceeds another by at most k and
      the calls that the other connection has finished. */
  lemma SpreadBound(cfg: Config, steps: seq<Step>, x: nat, y: nat)
    requires Run(cfg, steps).Some? && Run(cfg, steps).value.adds <= MAX_UINT32
    requires x < |cfg.on| && y < |cfg.on| && cfg.on[x] && cfg.on[y]
    ensures var s := Run(cfg, steps).value; s.active[x] - s.active[y] <= cfg.k + s.fin[y]
  {
    InvHolds(cfg, steps);
    var s := Run(cfg, steps).value;
    assert Reached(cfg, s, Begun(cfg, s, y));
    assert Lead(cfg, s, x, Begun(cfg, s, y));
  }

  /** Until the first callback runs, no two counters differ by more than k. */
  lemma SpreadAtMostK(cfg: Config, steps: seq<Step>, x: nat, y: nat)
    requires Run(cfg, steps).Some? && PicksOnly(steps) && Run(cfg, steps).value.adds <= MAX_UINT32
    requires x < |cfg.on| && y < |cfg.on| && cfg.on[x] && cfg.on[y]
    ensures var s := Run(cfg, steps).value; s.active[x] - s.active[y] <= cfg.k
  {
    PicksOnlyIff(cfg, steps);
    SpreadBound(cfg, steps, x, y);
  }

  ghost predicate NothingFinished(s: State) {
    forall c :: 0 <= c < |s.fin| ==> s.fin[c] == 0
  }

  lemma {:induction false} PicksOnlyIff(cfg: Config, steps: seq<Step>)
    requires Run(cfg, steps).Some?
    ensures PicksOnly(steps) <==> NothingFinished(Run(cfg, steps).value)
    decreases |steps|
  {
    if steps != [] {
      var last := |steps| - 1;
      PicksOnlyIff(cfg, steps[..last]);
      FinishStep(cfg, Run(cfg, steps[..last]).value, steps[last]);
      assert PicksOnly(steps) <==> PicksOnly(steps[..last]) && !steps[last].Done? by {
        assert forall i :: 0 <= i < last ==> steps[i] == steps[..last][i];
      }
    }
  }

  lemma FinishStep(cfg: Config, s: State, step: Step)
    requires Shaped(cfg, s) && Enabled(cfg, s, step)
    ensures NothingFinished(Apply(cfg, s, step)) <==> NothingFinished(s) && !step.Done?
  {
    var r := Apply(cfg, s, step);
    assert step.Done? ==> r.fin[step.conn] > 0;
    assert forall c :: 0 <= c < |s.fin| ==> s.fin[c] <= r.fin[c];
  }

  // ----- The bound is attained -----

  ghost predicate Reachable(cfg: Config, s: State) {
    exists steps :: Run(cfg, steps) == Some(s)
  }

  lemma ReachMore(cfg: Config, s: State, step: Step)
    requires Reachable(cfg, s) && Shaped(cfg, s) && Enabled(cfg, s, step)
    ensures Reachable(cfg, Apply(cfg, s, step)) && Shaped(cfg, Apply(cfg, s, step))
  {
    hide Apply, Enabled;
    var steps :| Run(cfg, steps) == Some(s);
    assert (steps + [step])[..|steps|] == steps;
    assert Run(cfg, steps + [step]) == Some(Apply(cfg, s, step));
    StaysShaped(cfg, s, step);
  }

  /** No pick is under way, and a scan would choose a: the first accepted connection, with no counter
      smaller than its own. */
  ghost predicate Base(cfg: Config, s: State, a: nat) {
    && Shaped(cfg, s) && s.picks == map[]
    && a < |cfg.on| && cfg.on[a] && (forall i :: 0 <= i < a ==> !cfg.on[i])
    && s.active[a] < MAX_UINT32 && forall i :: 0 <= i < |cfg.on| && cfg.on[i] ==> s.active[a] <= s.active[i]
  }

  /** j picks that have scanned everything and have seen least at a. */
  ghost function Ready(cfg: Config, a: nat, j: nat, least: uint32): (picks: map<nat, Pick>)
    ensures |picks| == j && forall p :: p in picks <==> 0 <= p < j
  {
    if j == 0 then map[] else Ready(cfg, a, j - 1, least)[j - 1 := Pick(|cfg.on|, Some(a), least)]
  }

  ghost function Waiting(cfg: Config, s: State, a: nat, j: nat, least: uint32): State {
    s.(picks := Ready(cfg, a, j, least))
  }

  /** One more pick that has looked at i connections. */
  ghost function Scanning(cfg: Config, s: State, a: nat, j: nat, i: nat): State
    requires a < |s.active|
  {
    var least := s.active[a];
    s.(picks := Ready(cfg, a, j, least)[j := if i <= a then Pick(i, None, MAX_UINT32) else Pick(i, Some(a), least)])
  }

  lemma {:induction false} ReadyShape(cfg: Config, a: nat, j: nat, least: uint32)
    ensures forall p :: p in Ready(cfg, a, j, least) ==> Ready(cfg, a, j, least)[p] == Pick(|cfg.on|, Some(a), least)
  {
    if j > 0 {
      ReadyShape(cfg, a, j - 1, least);
    }
  }

  lemma ScanStart(cfg: Config, s: State, a: nat, j: nat)
    requires Base(cfg, s, a) && j < cfg.k
    ensures var w, step := Waiting(cfg, s, a, j, s.active[a]), Start(j);
            Shaped(cfg, w) && Enabled(cfg, w, step) && Apply(cfg, w, step) == Scanning(cfg, s, a, j, 0)
  {
    ReadyShape(cfg, a, j, s.active[a]);
  }

  lemma ScanStep(cfg: Config, s: State, a: nat, j: nat, i: nat)
    requires Base(cfg, s, a) && j < cfg.k && i < |cfg.on|
    ensures var w, step := Scanning(cfg, s, a, j, i), if cfg.on[i] then Load(j) else Skip(j);
            Shaped(cfg, w) && Enabled(cfg, w, step) && Apply(cfg, w, step) == Scanning(cfg, s, a, j, i + 1)
  {
    ReadyShape(cfg, a, j, s.active[a]);
    var w, step := Scanning(cfg, s, a, j, i), if cfg.on[i] then Load(j) else Skip(j);
    assert Apply(cfg, w, step).picks == Scanning(cfg, s, a, j, i + 1).picks;
  }

  lemma BaseIndex(cfg: Config, s: State, a: nat)
    requires Base(cfg, s, a)
    ensures a < |s.active| == |s.held| == |s.fin| == |cfg.on| && cfg.on[a]
  {
  }

  lemma {:induction false} CanScan(cfg: Config, s: State, a: nat, j: nat, i: nat)
    requires Base(cfg, s, a) && j < cfg.k && i <= |cfg.on| && a < |s.active|
    requires Reachable(cfg, Waiting(cfg, s, a, j, s.active[a]))
    ensures Reachable(cfg, Scanning(cfg, s, a, j, i))
  {
    hide *;
    if i == 0 {
      ScanStart(cfg, s, a, j);
      ReachMore(cfg, Waiting(cfg, s, a, j, s.active[a]), Start(j));
    } else {
      CanScan(cfg, s, a, j, i - 1);
      ScanStep(cfg, s, a, j, i - 1);
      ReachMore(cfg, Scanning(cfg, s, a, j, i - 1), if cfg.on[i - 1] then Load(j) else Skip(j));
    }
  }

  lemma {:induction false} CanWait(cfg: Config, s: State, a: nat, j: nat)
    requires Base(cfg, s, a) && j <= cfg.k && Reachable(cfg, s)
    ensures Reachable(cfg, Waiting(cfg, s, a, j, s.active[a]))
  {
    if j == 0 {
      assert Waiting(cfg, s, a, 0, s.active[a]) == s;
    } else {
      CanWait(cfg, s, a, j - 1);
      CanScan(cfg, s, a, j - 1, |cfg.on|);
      assert Scanning(cfg, s, a, j - 1, |cfg.on|) == Waiting(cfg, s, a, j, s.active[a]);
    }
  }

  /** The state s in which m of k waiting picks have added, all to a. */
  ghost function Piled(cfg: Config, s: State, a: nat, m: nat, least: uint32): State
    requires a < |s.active| == |s.held| && m <= cfg.k && s.active[a] + m <= MAX_UINT32
  {
    State(s.active[a := s.active[a] + m], s.held[a := s.held[a] + m], s.fin,
          Ready(cfg, a, cfg.k - m, least), s.adds + m)
  }

  lemma NonePiled(cfg: Config, s: State, a: nat, least: uint32)
    requires a < |s.active| == |s.held|
    ensures Piled(cfg, s, a, 0, least) == Waiting(cfg, s, a, cfg.k, least)
  {
    assert s.active[a := s.active[a]] == s.active && s.held[a := s.held[a]] == s.held;
  }

  lemma PileStep(cfg: Config, s: State, a: nat, m: nat, least: uint32)
    requires a < |s.active| == |s.held| == |s.fin| == |cfg.on| && cfg.on[a]
    requires m < cfg.k && s.active[a] + m < MAX_UINT32
    ensures var w, step := Piled(cfg, s, a, m, least), Add(cfg.k - m - 1);
            Shaped(cfg, w) && Enabled(cfg, w, step) && Apply(cfg, w, step) == Piled(cfg, s, a, m + 1, least)
  {
    hide Wrap32;
    var j := cfg.k - m;
    ReadyShape(cfg, a, j, least);
    var w, step := Piled(cfg, s, a, m, least), Add(j - 1);
    WrapFits(s.active[a] + m + 1);
    assert Apply(cfg, w, step).picks == Piled(cfg, s, a, m + 1, least).picks;
    assert Apply(cfg, w, step).active == Piled(cfg, s, a, m + 1, least).active;
  }

  lemma {:induction false} CanPile(cfg: Config, s: State, a: nat, m: nat, least: uint32)
    requires a < |s.active| == |s.held| == |s.fin| == |cfg.on| && cfg.on[a]
    requires m <= cfg.k && s.active[a] + m <= MAX_UINT32
    requires Reachable(cfg, Waiting(cfg, s, a, cfg.k, least))
    ensures Reachable(cfg, Piled(cfg, s, a, m, least))
  {
    hide *;
    NonePiled(cfg, s, a, least);
    if m > 0 {
      CanPile(cfg, s, a, m - 1, least);
      PileStep(cfg, s, a, m - 1, least);
      ReachMore(cfg, Piled(cfg, s, a, m - 1, least), Add(cfg.k - m));
    }
  }

  /** For every k, and whatever the filter accepts besides connection a, some interleaving of k picks
      puts a exactly k above every other connection. */
  lemma SpreadAttained(cfg: Config, a: nat)
    requires a < |cfg.on| && cfg.on[a] && (forall i :: 0 <= i < a ==> !cfg.on[i]) && cfg.k <= MAX_UINT32
    ensures exists steps :: PicksOnly(steps) && Run(cfg, steps).Some? &&
              var s := Run(cfg, steps).value;
              && s.adds <= MAX_UINT32 && s.active[a] == cfg.k
              && forall y :: 0 <= y < |cfg.on| && y != a ==> s.active[y] == 0
  {
    var s := Init(cfg);
    assert Run(cfg, []) == Some(s);
    CanWait(cfg, s, a, cfg.k);
    CanPile(cfg, s, a, cfg.k, 0);
    var steps :| Run(cfg, steps) == Some(Piled(cfg, s, a, cfg.k, 0));
    PicksOnlyIff(cfg, steps);
  }

  /** The state s in which n calls of b have finished. */
  ghost function Drained(s: State, b: nat, n: nat): State
    requires b < |s.active| == |s.held| == |s.fin| && n <= s.held[b] == s.active[b]
  {
    s.(active := s.active[b := s.active[b] - n], held := s.held[b := s.held[b] - n], fin := s.fin[b := s.fin[b] + n])
  }

  lemma DrainStep(cfg: Config, s: State, a: nat, b: nat, n: nat, least: uint32)
    requires |s.active| == |s.held| == |s.fin| == |cfg.on| && a < |cfg.on| && b < |cfg.on| && cfg.on[a]
    requires n < s.held[b] == s.active[b]
    ensures var w, step := Waiting(cfg, Drained(s, b, n), a, cfg.k, least), Done(b);
            && Shaped(cfg, w) && Enabled(cfg, w, step)
            && Apply(cfg, w, step) == Waiting(cfg, Drained(s, b, n + 1), a, cfg.k, least)
  {
    ReadyShape(cfg, a, cfg.k, least);
    var w := Waiting(cfg, Drained(s, b, n), a, cfg.k, least);
    assert Apply(cfg, w, Done(b)).active == Drained(s, b, n + 1).active;
  }

  lemma {:induction false} CanDrain(cfg: Config, s: State, a: nat, b: nat, n: nat, least: uint32)
    requires |s.active| == |s.held| == |s.fin| == |cfg.on| && a < |cfg.on| && b < |cfg.on| && cfg.on[a]
    requires n <= s.held[b] == s.active[b] && Reachable(cfg, Waiting(cfg, s, a, cfg.k, least))
    ensures Reachable(cfg, Waiting(cfg, Drained(s, b, n), a, cfg.k, least))
  {
    hide *;
    if n == 0 {
      NoneDrained(s, b);
    } else {
      CanDrain(cfg, s, a, b, n - 1, least);
      DrainStep(cfg, s, a, b, n - 1, least);
      ReachMore(cfg, Waiting(cfg, Drained(s, b, n - 1), a, cfg.k, least), Done(b));
    }
  }

  lemma NoneDrained(s: State, b: nat)
    requires b < |s.active| == |s.held| == |s.fin| && s.held[b] == s.active[b]
    ensures Drained(s, b, 0) == s
  {
    assert s.active[b := s.active[b]] == s.active && s.held[b := s.held[b]] == s.held;
    assert s.fin[b := s.fin[b]] == s.fin;
  }

  /** Two connections that have been given f calls each, or the first one more. */
  ghost function Dealt(f: nat, more: bool): State
    requires f < MAX_UINT32
  {
    var g := if more then f + 1 else f;
    State([g, f], [g, f], [0, 0], map[], g + f)
  }

  lemma DealOne(k: nat, f: nat, more: bool)
    requires k >= 1 && f < MAX_UINT32 - 1
    ensures var cfg, s := Config([true, true], k), Dealt(f, more);
            && Shaped(cfg, s) && Enabled(cfg, s, Start(0)) && Shaped(cfg, Apply(cfg, s, Start(0)))
            && Alone(cfg, Apply(cfg, s, Start(0)), 0) == if more then Dealt(f + 1, false) else Dealt(f, true)
  {
    hide Alone;
    var cfg, s := Config([true, true], k), Dealt(f, more);
    var chosen := AloneIsPick(cfg, s, 0);
    assert cfg.on[0] && cfg.on[1] && s.active[0] <= f + 1 && s.active[1] == f;
    assert chosen == Some(if more then 1 else 0);
  }

  /** Picks one at a time deal the calls out evenly. */
  lemma {:induction false} CanDeal(k: nat, f: nat)
    requires k >= 1 && f < MAX_UINT32
    ensures Reachable(Config([true, true], k), Dealt(f, false))
  {
    var cfg := Config([true, true], k);
    if f == 0 {
      assert Run(cfg, []) == Some(Init(cfg));
      assert Init(cfg) == Dealt(0, false);
    } else {
      hide *;
      CanDeal(k, f - 1);
      DealOne(k, f - 1, false);
      ReachAlone(cfg, Dealt(f - 1, false), 0);
      DealOne(k, f - 1, true);
      ReachAlone(cfg, Dealt(f - 1, true), 0);
    }
  }

  lemma ReachAlone(cfg: Config, s: State, p: nat)
    requires Reachable(cfg, s) && Shaped(cfg, s) && Enabled(cfg, s, Start(p))
    ensures Shaped(cfg, Apply(cfg, s, Start(p))) && Reachable(cfg, Alone(cfg, Apply(cfg, s, Start(p)), p))
  {
    hide Apply, Enabled, Alone;
    ReachMore(cfg, s, Start(p));
    var steps :| Run(cfg, steps) == Some(Apply(cfg, s, Start(p)));
    var more := AloneIsRun(cfg, steps, p);
  }

  /** With callbacks too the bound is exact: for every k >= 1 and f, some run over two connections finishes
      exactly f calls of the second and leaves the first exactly k+f above it. */
  lemma SpreadBoundAttained(k: nat, f: nat)
    requires k >= 1 && 2 * f + k <= MAX_UINT32
    ensures exists steps :: Run(Config([true, true], k), steps).Some? &&
              var s := Run(Config([true, true], k), steps).value;
              s.adds <= MAX_UINT32 && s.fin[1] == f && s.active[0] == s.active[1] + k + f
  {
    var cfg, s := Config([true, true], k), Dealt(f, false);
    CanDeal(k, f);
    CanWait(cfg, s, 0, k);
    CanDrain(cfg, s, 0, 1, f, f);
    CanPile(cfg, Drained(s, 1, f), 0, k, f);
    var steps :| Run(cfg, steps) == Some(Piled(cfg, Drained(s, 1, f), 0, k, f));
  }

  // ----- A pick that nothing interrupts -----

  /** What a scan of the first n connections yields: the first accepted one with the smallest counter, if
      any accepted one is below the largest uint32. */
  ghost predicate FirstLeast(on: seq<bool>, active: seq<uint32>, n: nat, chosen: Option<nat>)
    requires n <= |on| == |active|
  {
    && (chosen.None? <==> forall i :: 0 <= i < n && on[i] ==> active[i] == MAX_UINT32)
    && (chosen.Some? ==>
          var c := chosen.value;
          && c < n && on[c]
          && (forall i :: 0 <= i < n && on[i] ==> active[c] <= active[i])
          && (forall i :: 0 <= i < c && on[i] ==> active[c] < active[i]))
  }

  ghost function Increased(active: seq<uint32>, chosen: Option<nat>): seq<uint32>
    requires chosen.Some? ==> chosen.value < |active|
  {
    if chosen.None? then active else active[chosen.value := Wrap32((active[chosen.value] as int) + 1)]
  }

  /** The next step of pick p. */
  ghost function Onward(cfg: Config, s: State, p: nat): (step: Step)
    requires Shaped(cfg, s) && p in s.picks
    ensures Enabled(cfg, s, step)
  {
    var k := s.picks[p];
    if k.i < |cfg.on| then (if cfg.on[k.i] then Load(p) else Skip(p))
    else if k.res.None? then GiveUp(p) else Add(p)
  }

  /** Pick p runs on alone to its end. */
  ghost function Alone(cfg: Config, s: State, p: nat): (r: State)
    requires Shaped(cfg, s)
    ensures Shaped(cfg, r)
    decreases if p in s.picks then |cfg.on| - s.picks[p].i + 1 else 0
  {
    if p !in s.picks then s
    else
      StaysShaped(cfg, s, Onward(cfg, s, p));
      Alone(cfg, Apply(cfg, s, Onward(cfg, s, p)), p)
  }

  lemma {:induction false} AloneIsRun(cfg: Config, steps: seq<Step>, p: nat) returns (more: seq<Step>)
    requires Run(cfg, steps).Some?
    ensures Run(cfg, more) == Some(Alone(cfg, Run(cfg, steps).value, p))
    decreases var s := Run(cfg, steps).value; if p in s.picks then |cfg.on| - s.picks[p].i + 1 else 0
  {
    more := steps;
    var s := Run(cfg, steps).value;
    if p in s.picks {
      var step := Onward(cfg, s, p);
      assert (steps + [step])[..|steps|] == steps;
      StaysShaped(cfg, s, step);
      more := AloneIsRun(cfg, steps + [step], p);
    }
  }

  /** What the two variables of pick p say about the connections it has loaded so far, when no counter has
      changed since. */
  ghost predicate ScanKnows(cfg: Config, s: State, p: nat)
    requires Shaped(cfg, s) && p in s.picks
  {
    var k := s.picks[p];
    && FirstLeast(cfg.on, s.active, k.i, k.res)
    && k.least == if k.res.None? then MAX_UINT32 else s.active[k.res.value]
  }

  lemma ScanGoesOn(cfg: Config, s: State, p: nat)
    requires Shaped(cfg, s) && p in s.picks && s.picks[p].i < |cfg.on| && ScanKnows(cfg, s, p)
    ensures var r := Apply(cfg, s, Onward(cfg, s, p));
            && Shaped(cfg, r) && r == s.(picks := r.picks) && r.picks - {p} == s.picks - {p}
            && p in r.picks && r.picks[p].i == s.picks[p].i + 1 && ScanKnows(cfg, r, p)
  {
    var k, r := s.picks[p], Apply(cfg, s, Onward(cfg, s, p));
    StaysShaped(cfg, s, Onward(cfg, s, p));
    assert k.res.Some? ==> k.least < MAX_UINT32;
    assert r.picks - {p} == s.picks - {p};
  }

  /** The state s once a call has been given to the chosen connection, if there is one. */
  ghost function Given(s: State, chosen: Option<nat>): State
    requires chosen.Some? ==> chosen.value < |s.active| == |s.held|
  {
    if chosen.None? then s
    else
      var c := chosen.value;
      s.(active := Increased(s.active, chosen), held := s.held[c := s.held[c] + 1], adds := s.adds + 1)
  }

  lemma {:induction false} AloneFromScan(cfg: Config, s: State, p: nat) returns (chosen: Option<nat>)
    requires Shaped(cfg, s) && p in s.picks && ScanKnows(cfg, s, p)
    ensures FirstLeast(cfg.on, s.active, |cfg.on|, chosen)
    ensures Alone(cfg, s, p) == Given(s.(picks := s.picks - {p}), chosen)
    decreases |cfg.on| - s.picks[p].i
  {
    var r := Apply(cfg, s, Onward(cfg, s, p));
    if s.picks[p].i < |cfg.on| {
      ScanGoesOn(cfg, s, p);
      chosen := AloneFromScan(cfg, r, p);
    } else {
      chosen := s.picks[p].res;
      StaysShaped(cfg, s, Onward(cfg, s, p));
      assert Alone(cfg, r, p) == r;
    }
  }

  /** The steps of an uninterrupted pick, begun in any state, add up to the sequential one. */
  lemma AloneIsPick(cfg: Config, s: State, p: nat) returns (chosen: Option<nat>)
    requires Shaped(cfg, s) && Enabled(cfg, s, Start(p))
    ensures FirstLeast(cfg.on, s.active, |cfg.on|, chosen) && Shaped(cfg, Apply(cfg, s, Start(p)))
    ensures Alone(cfg, Apply(cfg, s, Start(p)), p) == Given(s, chosen)
    ensures Given(s, chosen).active == Increased(s.active, chosen)
  {
    StaysShaped(cfg, s, Start(p));
    var r := Apply(cfg, s, Start(p));
    chosen := AloneFromScan(cfg, r, p);
    assert r.picks - {p} == s.picks;
  }

  // ----- The pick as the code runs it when nothing interferes -----

  class Picker {
    const active: array<uint32>

    constructor (n: nat)
      ensures fresh(active) && active.Length == n && forall i :: 0 <= i < n ==> active[i] == 0
    {
      active := new uint32[n](i => 0);
    }

    /** accepts holds the filter's verdicts. The choice is the first accepted connection with the
        smallest counter, and only its counter changes. A counter at the largest uint32 is never chosen. */
    method Pick(accepts: seq<bool>) returns (chosen: Option<nat>)
      requires |accepts| == active.Length
      modifies active
      ensures FirstLeast(accepts, old(active[..]), |accepts|, chosen)
      ensures active[..] == Increased(old(active[..]), chosen)
    {
      if active.Length == 0 {
        return None;
      }
      var least: uint32 := MAX_UINT32;
      chosen := None;
      for i := 0 to active.Length
        invariant active[..] == old(active[..])
        invariant chosen.None? ==> least == MAX_UINT32
        invariant chosen.Some? ==> chosen.value < i && accepts[chosen.value]
        invariant chosen.Some? ==> active[chosen.value] == least < MAX_UINT32
        invariant forall j :: 0 <= j < i && accepts[j] ==> least <= active[j]
        invariant chosen.Some? ==> forall j :: 0 <= j < chosen.value && accepts[j] ==> least < active[j]
      {
        if accepts[i] && active[i] < least {
          least := active[i];
          chosen := Some(i);
        }
      }
      if chosen.Some? {
        active[chosen.value] := Wrap32((active[chosen.value] as int) + 1);
      }
    }

    /** The callback of a call that went to connection c. */
    method Done(c: nat)
      requires c < active.Length
      modifies active
      ensures active[..] == old(active[..])[c := Wrap32(old(active[c] as int) - 1)]
    {
      active[c] := Wrap32((active[c] as int) - 1);
    }
  }
}
