/**
 The fan-out of cluster/broadcastall/cluster.go once ListServices has returned its instances: one
 goroutine per instance, a wait group, a goroutine that closes the response channel, and a receiver.
 The channel is unbuffered, so a send happens together with a receive.
 */
module BroadcastAll {
  import opened Prelude

  datatype Phase =
    | Dialing
    | DialFailed    // about to send its error, with nothing else to wait for
    | Calling       // inside invoker
    | Offering      // in the select between ctx.Done and the send
    | Leaving       // about to call wg.Done
    | Gone

  /** received lists the instances whose response was taken, in order. panicked records a send on a
      closed channel, a second close, or a wait group below zero. */
  datatype State = State(phases: seq<Phase>, wg: int, closed: bool, cancelled: bool, listening: bool,
                         received: seq<nat>, panicked: bool)

  datatype Step =
    | Dial(i: nat, ok: bool)
    | Reply(i: nat)
    | SendError(i: nat)
    | SendValue(i: nat)
    | GiveUp(i: nat)
    | WgDone(i: nat)
    | Close
    | Cancel
    | StopListening

  function Init(n: nat): State {
    State(seq(n, i => Dialing), n, false, false, true, [], false)
  }

  predicate In(s: State, i: nat, p: Phase) {
    i < |s.phases| && s.phases[i] == p
  }

  /** A send proceeds when a receiver is there, or panics when the channel is closed. */
  predicate Enabled(s: State, step: Step) {
    match step
    case Dial(i, ok) => In(s, i, Dialing)
    case Reply(i) => In(s, i, Calling)
    case SendError(i) => In(s, i, DialFailed) && (s.listening || s.closed)
    case SendValue(i) => In(s, i, Offering) && (s.listening || s.closed)
    case GiveUp(i) => In(s, i, Offering) && s.cancelled
    case WgDone(i) => In(s, i, Leaving)
    case Close => s.wg == 0 && !s.closed
    case Cancel => !s.cancelled
    case StopListening => s.listening
  }

  function Move(s: State, i: nat, p: Phase): seq<Phase>
    requires i < |s.phases|
  {
    s.phases[i := p]
  }

  function Apply(s: State, step: Step): State
    requires Enabled(s, step)
  {
    match step
    case Dial(i, ok) => s.(phases := Move(s, i, if ok then Calling else DialFailed))
    case Reply(i) => s.(phases := Move(s, i, Offering))
    case SendError(i) => Send(s, i)
    case SendValue(i) => Send(s, i)
    case GiveUp(i) => s.(phases := Move(s, i, Leaving))
    case WgDone(i) => s.(phases := Move(s, i, Gone), wg := s.wg - 1, panicked := s.panicked || s.wg <= 0)
    case Close => s.(closed := true, panicked := s.panicked || s.closed)
    case Cancel => s.(cancelled := true)
    case StopListening => s.(listening := false)
  }

  function Send(s: State, i: nat): State
    requires i < |s.phases|
  {
    if s.closed then s.(panicked := true)
    else s.(phases := Move(s, i, Leaving), received := s.received + [i])
  }

  function Run(n: nat, steps: seq<Step>): Option<State>
    decreases |steps|
  {
    if steps == [] then Some(Init(n))
    else
      var last := |steps| - 1;
      match Run(n, steps[..last])
      case None => None
      case Some(s) => if Enabled(s, steps[last]) then Some(Apply(s, steps[last])) else None
  }

  // ----- Safety -----

  /** Goroutines that have not called wg.Done. */
  ghost function Pending(phases: seq<Phase>, n: nat): nat
    requires n <= |phases|
  {
    if n == 0 then 0 else Pending(phases, n - 1) + if phases[n - 1].Gone? then 0 else 1
  }

  lemma {:induction false} PendingUpdate(phases: seq<Phase>, i: nat, p: Phase, n: nat)
    requires n <= |phases| && i < |phases|
    ensures Pending(phases[i := p], n) ==
      Pending(phases, n) + if i < n then (if p.Gone? then 0 else 1) - (if phases[i].Gone? then 0 else 1) else 0
  {
    if n > 0 {
      PendingUpdate(phases, i, p, n - 1);
    }
  }

  lemma {:induction false} PendingSome(phases: seq<Phase>, n: nat, i: nat)
    requires i < n <= |phases| && !phases[i].Gone?
    ensures Pending(phases, n) >= 1
  {
    if i < n - 1 {
      PendingSome(phases, n - 1, i);
    }
  }

  ghost predicate Past(p: Phase) {
    p.Leaving? || p.Gone?
  }

  ghost predicate Inv(n: nat, s: State) {
    && |s.phases| == n && !s.panicked
    && s.wg == Pending(s.phases, n)
    && (s.closed ==> s.wg == 0)
    && (forall j :: 0 <= j < |s.received| ==> s.received[j] < n && Past(s.phases[s.received[j]]))
    && (forall j, k :: 0 <= j < k < |s.received| ==> s.received[j] != s.received[k])
    && (!s.cancelled ==> forall i :: 0 <= i < n && Past(s.phases[i]) ==> i in s.received)
  }

  lemma StepKeepsCounts(n: nat, s: State, step: Step)
    requires Inv(n, s) && Enabled(s, step)
    ensures var r := Apply(s, step);
      && |r.phases| == n && !r.panicked && r.wg == Pending(r.phases, n) && (r.closed ==> r.wg == 0)
    ensures !(step.Close? || step.Cancel? || step.StopListening?) ==> !s.closed
  {
    if !(step.Close? || step.Cancel? || step.StopListening?) {
      var r := Apply(s, step);
      PendingSome(s.phases, n, step.i);
      assert !s.closed;
      PendingUpdate(s.phases, step.i, r.phases[step.i], n);
    }
  }

  lemma StepKeepsInv(n: nat, s: State, step: Step)
    requires Inv(n, s) && Enabled(s, step)
    ensures Inv(n, Apply(s, step))
  {
    hide Pending;
    StepKeepsCounts(n, s, step);
  }

  lemma {:induction false} InvHolds(n: nat, steps: seq<Step>)
    requires Run(n, steps).Some?
    ensures Inv(n, Run(n, steps).value)
    decreases |steps|
  {
    if steps == [] {
      AllPending(n, n);
    } else {
      var last := |steps| - 1;
      InvHolds(n, steps[..last]);
      StepKeepsInv(n, Run(n, steps[..last]).value, steps[last]);
    }
  }

  lemma {:induction false} AllPending(n: nat, m: nat)
    requires m <= n
    ensures Pending(seq(n, i => Dialing), m) == m
  {
    if m > 0 {
      AllPending(n, m - 1);
    }
  }

  /** In every interleaving nothing panics: no send on the closed channel, one close, no negative wait
      group. No instance is received twice. A closed channel means that every goroutine has finished,
      and that every instance was received if the context was not cancelled. */
  lemma Safe(n: nat, steps: seq<Step>)
    requires Run(n, steps).Some?
    ensures var s := Run(n, steps).value;
      && |s.phases| == n && !s.panicked
      && (forall j, k :: 0 <= j < k < |s.received| ==> s.received[j] != s.received[k])
      && (forall j :: 0 <= j < |s.received| ==> s.received[j] < n)
      && (s.closed ==> forall i :: 0 <= i < n ==> s.phases[i] == Gone)
      && (s.closed && !s.cancelled ==> forall i :: 0 <= i < n ==> i in s.received)
  {
    InvHolds(n, steps);
    var s := Run(n, steps).value;
    if s.closed {
      forall i: nat | i < n
        ensures s.phases[i] == Gone
      {
        if s.phases[i] != Gone {
          PendingSome(s.phases, n, i);
          assert false;
        }
      }
    }
  }

  /** Where a goroutine may be, given whether its dial has succeeded or failed. */
  ghost predicate Dialed(p: Phase, ok: bool, failed: bool) {
    && (p == Dialing <==> !ok && !failed)
    && (p == DialFailed ==> failed)
    && (p == Calling || p == Offering ==> ok)
    && !(ok && failed)
  }

  lemma StepKeepsDialed(s: State, step: Step, i: nat, ok: bool, failed: bool)
    requires Enabled(s, step) && i < |s.phases| && Dialed(s.phases[i], ok, failed)
    ensures |Apply(s, step).phases| == |s.phases|
    ensures Dialed(Apply(s, step).phases[i], ok || step == Dial(i, true), failed || step == Dial(i, false))
  {
  }

  /** A goroutine is where the outcome of its own dial has led it: before it, on the way that ends with the
      dial's error, or on the way through the call. */
  lemma {:induction false} DialDecides(n: nat, steps: seq<Step>, i: nat)
    requires Run(n, steps).Some? && i < n
    ensures |Run(n, steps).value.phases| == n
    ensures Dialed(Run(n, steps).value.phases[i], Dial(i, true) in steps, Dial(i, false) in steps)
    decreases |steps|
  {
    hide Apply, Enabled, Dialed;
    if steps == [] {
      NotDialed(n, i);
    } else {
      var last := |steps| - 1;
      assert steps == steps[..last] + [steps[last]];
      DialDecides(n, steps[..last], i);
      StepKeepsDialed(Run(n, steps[..last]).value, steps[last], i,
                      Dial(i, true) in steps[..last], Dial(i, false) in steps[..last]);
    }
  }

  lemma NotDialed(n: nat, i: nat)
    requires i < n
    ensures Dialed(Init(n).phases[i], false, false)
  {
  }

  // ----- A draining receiver reaches the end -----

  function Rank(p: Phase): nat {
    match p
    case Dialing => 4
    case Calling => 3
    case DialFailed => 2
    case Offering => 2
    case Leaving => 1
    case Gone => 0
  }

  ghost function RankSum(phases: seq<Phase>, n: nat): nat
    requires n <= |phases|
  {
    if n == 0 then 0 else RankSum(phases, n - 1) + Rank(phases[n - 1])
  }

  lemma {:induction false} RankSumUpdate(phases: seq<Phase>, i: nat, p: Phase, n: nat)
    requires n <= |phases| && i < |phases|
    ensures RankSum(phases[i := p], n) == RankSum(phases, n) + if i < n then Rank(p) - Rank(phases[i]) else 0
  {
    if n > 0 {
      RankSumUpdate(phases, i, p, n - 1);
    }
  }

  ghost function Left(s: State): nat {
    RankSum(s.phases, |s.phases|)
    + (if s.closed then 0 else 1) + (if s.cancelled then 0 else 1) + (if s.listening then 1 else 0)
  }

  lemma StepUsesUp(n: nat, s: State, step: Step)
    requires Inv(n, s) && Enabled(s, step)
    ensures Left(Apply(s, step)) < Left(s)
  {
    if !(step.Close? || step.Cancel? || step.StopListening?) {
      PendingSome(s.phases, n, step.i);
      RankSumUpdate(s.phases, step.i, Apply(s, step).phases[step.i], n);
    }
  }

  /** Every run is finite: at most 4n+3 steps, whatever the order. */
  lemma {:induction false} RunsAreFinite(n: nat, steps: seq<Step>)
    requires Run(n, steps).Some?
    ensures |steps| + Left(Run(n, steps).value) <= 4 * n + 3
    decreases |steps|
  {
    if steps == [] {
      FullRank(n, n);
    } else {
      var last := |steps| - 1;
      RunsAreFinite(n, steps[..last]);
      InvHolds(n, steps[..last]);
      StepUsesUp(n, Run(n, steps[..last]).value, steps[last]);
    }
  }

  lemma {:induction false} FullRank(n: nat, m: nat)
    requires m <= n
    ensures RankSum(seq(n, i => Dialing), m) == 4 * m
  {
    if m > 0 {
      FullRank(n, m - 1);
    }
  }

  /** A step of the fan-out itself, as opposed to the caller's. */
  predicate Internal(step: Step) {
    !step.Cancel? && !step.StopListening?
  }

  /** Some goroutine is not done, so the wait group is not at zero. */
  lemma {:induction false} SomeonePending(phases: seq<Phase>, n: nat) returns (i: nat)
    requires n <= |phases| && Pending(phases, n) > 0
    ensures i < n && !phases[i].Gone?
  {
    if phases[n - 1].Gone? {
      i := SomeonePending(phases, n - 1);
    } else {
      i := n - 1;
    }
  }

  /** While the receiver drains the channel the fan-out never gets stuck before the close. */
  lemma NeverStuck(n: nat, steps: seq<Step>) returns (step: Step)
    requires Run(n, steps).Some? && Run(n, steps).value.listening && !Run(n, steps).value.closed
    ensures Internal(step) && Enabled(Run(n, steps).value, step)
  {
    InvHolds(n, steps);
    var s := Run(n, steps).value;
    if s.wg == 0 {
      step := Close;
    } else {
      var i := SomeonePending(s.phases, n);
      step := match s.phases[i]
        case Dialing => Dial(i, true)
        case DialFailed => SendError(i)
        case Calling => Reply(i)
        case Offering => SendValue(i)
        case _ => WgDone(i);
    }
  }

  /** So a run that can go no further, with a receiver that kept draining and no cancellation, has closed
      the channel after exactly one response from each instance. */
  lemma DrainedExactlyOnce(n: nat, steps: seq<Step>)
    requires Run(n, steps).Some?
    requires var s := Run(n, steps).value;
             s.listening && !s.cancelled && forall step :: Internal(step) ==> !Enabled(s, step)
    ensures var s := Run(n, steps).value;
      && s.closed && |s.received| == n
      && (forall i :: 0 <= i < n ==> i in s.received)
      && (forall j, k :: 0 <= j < k < n ==> s.received[j] != s.received[k])
  {
    var s := Run(n, steps).value;
    if !s.closed {
      var step := NeverStuck(n, steps);
      assert false;
    }
    Safe(n, steps);
    Permutation(s.received, n);
  }

  /** A list without repetition of the numbers below n is n long. */
  lemma {:induction false} Permutation(r: seq<nat>, n: nat)
    requires forall i :: 0 <= i < n ==> i in r
    requires forall j :: 0 <= j < |r| ==> r[j] < n
    requires forall j, k :: 0 <= j < k < |r| ==> r[j] != r[k]
    ensures |r| == n
  {
    assert r != [] ==> r[0] < n;
    if n > 0 {
      assert n - 1 in r;
      var j :| 0 <= j < |r| && r[j] == n - 1;
      DropOne(r, n, j);
      Permutation(r[..j] + r[j + 1..], n - 1);
    }
  }

  lemma DropOne(r: seq<nat>, n: nat, j: nat)
    requires n > 0 && j < |r| && r[j] == n - 1
    requires forall i :: 0 <= i < n ==> i in r
    requires forall k :: 0 <= k < |r| ==> r[k] < n
    requires forall k, l :: 0 <= k < l < |r| ==> r[k] != r[l]
    ensures var q := r[..j] + r[j + 1..];
      && (forall i :: 0 <= i < n - 1 ==> i in q)
      && (forall k :: 0 <= k < |q| ==> q[k] < n - 1)
      && (forall k, l :: 0 <= k < l < |q| ==> q[k] != q[l])
  {
    var q := r[..j] + r[j + 1..];
    assert forall k :: 0 <= k < |q| ==> q[k] == r[if k < j then k else k + 1];
    forall i: nat | i < n - 1
      ensures i in q
    {
      assert i in r;
      var k :| 0 <= k < |r| && r[k] == i;
      assert q[if k < j then k else k - 1] == i;
    }
  }

  // ----- A receiver that walks away -----

  /** What is left of a run, from any state on. */
  function Continue(s: State, steps: seq<Step>): Option<State>
    decreases |steps|
  {
    if steps == [] then Some(s)
    else
      var last := |steps| - 1;
      match Continue(s, steps[..last])
      case None => None
      case Some(r) => if Enabled(r, steps[last]) then Some(Apply(r, steps[last])) else None
  }

  /** An instance whose dial failed sends outside the select: once nobody receives, it waits for ever, and
      the channel is never closed, cancellation or not. */
  lemma {:induction false} FailedDialLeaks(n: nat, s: State, i: nat, steps: seq<Step>)
    requires Inv(n, s) && In(s, i, DialFailed) && !s.listening
    requires Continue(s, steps).Some?
    ensures var r := Continue(s, steps).value; Inv(n, r) && In(r, i, DialFailed) && !r.listening && !r.closed
    decreases |steps|
  {
    if steps == [] {
      PendingSome(s.phases, n, i);
    } else {
      var last := |steps| - 1;
      FailedDialLeaks(n, s, i, steps[..last]);
      StepKeepsInv(n, Continue(s, steps[..last]).value, steps[last]);
      var r := Continue(s, steps).value;
      PendingSome(r.phases, n, i);
    }
  }

  ghost predicate NoFailedDial(s: State) {
    forall i :: 0 <= i < |s.phases| ==> s.phases[i] != DialFailed
  }

  /** With no failed dial outstanding, a cancelled fan-out always has a step to take that leads to none. */
  lemma CancelFrees(n: nat, s: State) returns (step: Step)
    requires Inv(n, s) && s.cancelled && !s.closed && NoFailedDial(s)
    ensures Internal(step) && Enabled(s, step) && NoFailedDial(Apply(s, step))
  {
    if s.wg == 0 {
      step := Close;
    } else {
      var i := SomeonePending(s.phases, n);
      step := match s.phases[i]
        case Dialing => Dial(i, true)
        case Calling => Reply(i)
        case Offering => GiveUp(i)
        case _ => WgDone(i);
    }
  }

  ghost predicate CanClose(s: State) {
    exists steps :: Continue(s, steps).Some? && Continue(s, steps).value.closed
  }

  lemma {:induction false} ContinueCompose(s: State, step: Step, steps: seq<Step>)
    requires Enabled(s, step)
    ensures Continue(s, [step] + steps) == Continue(Apply(s, step), steps)
    decreases |steps|
  {
    if steps == [] {
      assert [step] + steps == [step] && [step][..0] == [];
      assert Continue(s, []) == Some(s);
    } else {
      var last := |steps| - 1;
      ContinueCompose(s, step, steps[..last]);
      assert ([step] + steps)[..last + 1] == [step] + steps[..last];
    }
  }

  lemma {:induction false} CancelledCloses(n: nat, s: State)
    requires Inv(n, s) && s.cancelled && NoFailedDial(s)
    ensures CanClose(s)
    decreases Left(s)
  {
    if s.closed {
      assert Continue(s, []) == Some(s);
    } else {
      var step := CancelFrees(n, s);
      StepKeepsInv(n, s, step);
      StepUsesUp(n, s, step);
      CancelledCloses(n, Apply(s, step));
      var steps :| Continue(Apply(s, step), steps).Some? && Continue(Apply(s, step), steps).value.closed;
      ContinueCompose(s, step, steps);
    }
  }

  /** After the receiver has walked away and the context is cancelled, the fan-out can still finish and
      close its channel exactly when no goroutine is stuck on the error of a failed dial. */
  lemma CanCloseIff(n: nat, s: State)
    requires Inv(n, s) && s.cancelled && !s.listening
    ensures CanClose(s) <==> NoFailedDial(s)
  {
    if NoFailedDial(s) {
      CancelledCloses(n, s);
    } else if CanClose(s) {
      var i :| 0 <= i < |s.phases| && s.phases[i] == DialFailed;
      var steps :| Continue(s, steps).Some? && Continue(s, steps).value.closed;
      FailedDialLeaks(n, s, i, steps);
    }
  }

  /** And it will: a run that can go no further, cancelled and without a receiver, has closed the channel
      exactly when no goroutine is stuck on the error of a failed dial, however the dials went. */
  lemma EndsClosedIff(n: nat, steps: seq<Step>)
    requires Run(n, steps).Some?
    requires var s := Run(n, steps).value;
             s.cancelled && !s.listening && forall step :: Internal(step) ==> !Enabled(s, step)
    ensures Run(n, steps).value.closed <==> NoFailedDial(Run(n, steps).value)
  {
    var s := Run(n, steps).value;
    InvHolds(n, steps);
    Safe(n, steps);
    if !s.closed && NoFailedDial(s) {
      var step := CancelFrees(n, s);
      assert false;
    }
  }
}
