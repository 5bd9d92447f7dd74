/**
 The sliding-window limiter of ratelimit/slide_window.go: a queue of the times of admitted requests,
 trimmed only when it is long. The reference is the full history of admitted times. The comparison in
 the code is strict, so one request more than maxRate gets through.
 */
module SlideWindow {
  datatype Config = Config(maxRate: int, interval: int)

  // ----- The reference: nothing is ever forgotten -----

  /** How many times of the history lie at or after from. */
  function Since(history: seq<int>, from: int): nat {
    if history == [] then 0
    else Since(history[..|history| - 1], from) + if history[|history| - 1] >= from then 1 else 0
  }

  /** A request at time now passes when the closed window that ends at now holds at most maxRate. */
  predicate Passes(cfg: Config, history: seq<int>, now: int) {
    Since(history, now - cfg.interval) <= cfg.maxRate
  }

  /** The history after requests at the given times. */
  function History(cfg: Config, times: seq<int>): seq<int> {
    if times == [] then []
    else
      var before, now := History(cfg, times[..|times| - 1]), times[|times| - 1];
      if Passes(cfg, before, now) then before + [now] else before
  }

  ghost predicate Sorted(s: seq<int>) {
    forall i, j :: 0 <= i <= j < |s| ==> s[i] <= s[j]
  }

  // ----- The queue -----

  /** The eviction loop: drops the front while it lies before from. */
  function Evicted(queue: seq<int>, from: int): (r: seq<int>)
    ensures |r| <= |queue|
  {
    if queue != [] && queue[0] < from then Evicted(queue[1..], from) else queue
  }

  /** One request: the new queue and the verdict. */
  function Admit(cfg: Config, queue: seq<int>, now: int): (seq<int>, bool) {
    if |queue| < cfg.maxRate then (queue + [now], true)
    else
      var kept := Evicted(queue, now - cfg.interval);
      if |kept| > cfg.maxRate then (kept, false) else (kept + [now], true)
  }

  function Queue(cfg: Config, times: seq<int>): seq<int> {
    if times == [] then [] else Admit(cfg, Queue(cfg, times[..|times| - 1]), times[|times| - 1]).0
  }

  /** The queue is the end of the history, and what it has forgotten lies before every later window. */
  ghost predicate Recent(cfg: Config, queue: seq<int>, history: seq<int>, now: int) {
    var gone := |history| - |queue|;
    && 0 <= gone && queue == history[gone..]
    && Sorted(history)
    && (forall i :: 0 <= i < |history| ==> history[i] <= now)
    && (forall i :: 0 <= i < gone ==> history[i] < now - cfg.interval)
  }

  lemma {:induction false} SinceSplit(a: seq<int>, b: seq<int>, from: int)
    ensures Since(a + b, from) == Since(a, from) + Since(b, from)
  {
    if b == [] {
      assert a + b == a;
    } else {
      var n := |b| - 1;
      assert (a + b)[..|a + b| - 1] == a + b[..n];
      SinceSplit(a, b[..n], from);
    }
  }

  lemma {:induction false} SinceAll(s: seq<int>, from: int)
    ensures Since(s, from) <= |s|
    ensures (forall i :: 0 <= i < |s| ==> s[i] >= from) ==> Since(s, from) == |s|
    ensures (forall i :: 0 <= i < |s| ==> s[i] < from) ==> Since(s, from) == 0
  {
    if s != [] {
      var n := |s| - 1;
      SinceAll(s[..n], from);
      assert (forall i :: 0 <= i < |s| ==> s[i] >= from) ==> forall i :: 0 <= i < n ==> s[..n][i] >= from;
      assert (forall i :: 0 <= i < |s| ==> s[i] < from) ==> forall i :: 0 <= i < n ==> s[..n][i] < from;
    }
  }

  /** A history cut at position k, with only old times before it. */
  lemma SinceTail(history: seq<int>, k: nat, from: int)
    requires k <= |history| && forall i :: 0 <= i < k ==> history[i] < from
    ensures Since(history, from) == Since(history[k..], from) <= |history| - k
    ensures (forall i :: k <= i < |history| ==> history[i] >= from) ==> Since(history, from) == |history| - k
  {
    assert history == history[..k] + history[k..];
    SinceSplit(history[..k], history[k..], from);
    SinceAll(history[..k], from);
    SinceAll(history[k..], from);
  }

  /** Trimming drops a prefix, all of it old, and stops at the first time that is not. */
  lemma {:induction false} EvictedIsTail(queue: seq<int>, from: int)
    ensures var k := |queue| - |Evicted(queue, from)|;
      && Evicted(queue, from) == queue[k..]
      && (forall i :: 0 <= i < k ==> queue[i] < from)
      && (k < |queue| ==> queue[k] >= from)
  {
    if queue != [] && queue[0] < from {
      EvictedIsTail(queue[1..], from);
      assert forall i :: 0 < i < |queue| ==> queue[i] == queue[1..][i - 1];
    }
  }

  lemma Later(cfg: Config, queue: seq<int>, history: seq<int>, last: int, now: int)
    requires last <= now && Recent(cfg, queue, history, last)
    ensures Recent(cfg, queue, history, now)
    ensures Since(history, now - cfg.interval) <= |queue|
  {
    SinceTail(history, |history| - |queue|, now - cfg.interval);
  }

  lemma Push(cfg: Config, queue: seq<int>, history: seq<int>, now: int)
    requires Recent(cfg, queue, history, now)
    ensures Recent(cfg, queue + [now], history + [now], now)
  {
  }

  lemma Trim(cfg: Config, queue: seq<int>, history: seq<int>, now: int)
    requires Recent(cfg, queue, history, now)
    ensures var kept := Evicted(queue, now - cfg.interval);
            Recent(cfg, kept, history, now) && |kept| == Since(history, now - cfg.interval)
  {
    hide Since, Evicted;
    var from, gone := now - cfg.interval, |history| - |queue|;
    EvictedIsTail(queue, from);
    var k := |history| - |Evicted(queue, from)|;
    assert forall i :: gone <= i < |history| ==> history[i] == queue[i - gone];
    SinceTail(history, k, from);
  }

  /** One request keeps the queue a tail of the history, and its verdict is the reference's. */
  lemma AdmitAgrees(cfg: Config, queue: seq<int>, history: seq<int>, last: int, now: int)
    requires last <= now && Recent(cfg, queue, history, last)
    ensures Admit(cfg, queue, now).1 == Passes(cfg, history, now)
    ensures Recent(cfg, Admit(cfg, queue, now).0, if Passes(cfg, history, now) then history + [now] else history, now)
  {
    hide Recent, Evicted, Since;
    Later(cfg, queue, history, last, now);
    Trim(cfg, queue, history, now);
    Push(cfg, queue, history, now);
    Push(cfg, Evicted(queue, now - cfg.interval), history, now);
  }

  lemma {:induction false} QueueIsTail(cfg: Config, times: seq<int>, now: int)
    requires Sorted(times + [now])
    ensures Recent(cfg, Queue(cfg, times), History(cfg, times), if times == [] then now else times[|times| - 1])
  {
    hide Recent, Admit, Passes;
    if times == [] {
      NothingYet(cfg, now);
    } else {
      var n := |times| - 1;
      var before, last := times[..n], times[n];
      assert before + [last] == times;
      assert Sorted(times) && times[n] == (times + [now])[n] by {
        assert forall i :: 0 <= i < |times| ==> times[i] == (times + [now])[i];
      }
      QueueIsTail(cfg, before, last);
      AdmitAgrees(cfg, Queue(cfg, before), History(cfg, before), if before == [] then last else before[n - 1], last);
    }
  }

  lemma NothingYet(cfg: Config, now: int)
    ensures Recent(cfg, Queue(cfg, []), History(cfg, []), now)
  {
  }

  /** Requests that arrive in the order of their times: the limiter with its short memory and its path
      that does not trim gives the verdict of the full history, every time. */
  lemma VerdictIsReference(cfg: Config, times: seq<int>, now: int)
    requires Sorted(times + [now])
    ensures Admit(cfg, Queue(cfg, times), now).1 == Passes(cfg, History(cfg, times), now)
  {
    QueueIsTail(cfg, times, now);
    var n := |times| - 1;
    assert times != [] ==> times[n] == (times + [now])[n] <= (times + [now])[n + 1];
    AdmitAgrees(cfg, Queue(cfg, times), History(cfg, times), if times == [] then now else times[n], now);
  }

  /** The times of the requests that the code lets through. */
  function Served(cfg: Config, times: seq<int>): seq<int> {
    if times == [] then []
    else
      var before, now := times[..|times| - 1], times[|times| - 1];
      Served(cfg, before) + if Admit(cfg, Queue(cfg, before), now).1 then [now] else []
  }

  lemma {:induction false} ServedIsHistory(cfg: Config, times: seq<int>)
    requires Sorted(times)
    ensures Served(cfg, times) == History(cfg, times)
  {
    hide Admit, Passes;
    if times != [] {
      var n := |times| - 1;
      assert times[..n] + [times[n]] == times;
      ServedIsHistory(cfg, times[..n]);
      VerdictIsReference(cfg, times[..n], times[n]);
    }
  }

  lemma SortedPrefix(times: seq<int>, now: int)
    requires Sorted(times + [now])
    ensures Sorted(times)
  {
    assert forall i :: 0 <= i < |times| ==> times[i] == (times + [now])[i];
  }

  /** The answer, in terms of what was let through: a request in time order passes exactly when the closed
      window that ends with it holds at most maxRate of the requests let through before. */
  lemma PassesIff(cfg: Config, times: seq<int>, now: int)
    requires Sorted(times + [now])
    ensures Admit(cfg, Queue(cfg, times), now).1
       <==> Between(Served(cfg, times), now - cfg.interval, now) <= cfg.maxRate
  {
    hide *;
    VerdictIsReference(cfg, times, now);
    SortedPrefix(times, now);
    ServedIsHistory(cfg, times);
    HistoryIsPast(cfg, times, now);
    BetweenIsSince(History(cfg, times), now - cfg.interval, now);
    PassesIs(cfg, History(cfg, times), now);
  }

  lemma PassesIs(cfg: Config, history: seq<int>, now: int)
    ensures Passes(cfg, history, now) <==> Since(history, now - cfg.interval) <= cfg.maxRate
  {
  }

  /** The queue never holds more than maxRate+1 times. */
  lemma {:induction false} QueueIsShort(cfg: Config, times: seq<int>)
    ensures |Queue(cfg, times)| <= if cfg.maxRate < 0 then 0 else cfg.maxRate + 1
  {
    if times != [] {
      QueueIsShort(cfg, times[..|times| - 1]);
    }
  }

  /** The admitted times in the closed interval from lo to hi. */
  function Between(history: seq<int>, lo: int, hi: int): nat {
    if history == [] then 0
    else
      var n := |history| - 1;
      Between(history[..n], lo, hi) + if lo <= history[n] <= hi then 1 else 0
  }

  /** k requests at the same instant. */
  ghost function Burst(now: int, k: nat): (times: seq<int>)
    ensures |times| == k
  {
    seq(k, i => now)
  }

  lemma {:induction false} BurstHistory(cfg: Config, now: int, k: nat)
    requires cfg.maxRate >= 0 && cfg.interval >= 0
    ensures History(cfg, Burst(now, k)) == Burst(now, if k <= cfg.maxRate + 1 then k else cfg.maxRate + 1)
  {
    hide Since;
    if k > 0 {
      BurstHistory(cfg, now, k - 1);
      assert Burst(now, k)[..k - 1] == Burst(now, k - 1);
      var m := if k - 1 <= cfg.maxRate + 1 then k - 1 else cfg.maxRate + 1;
      SinceAll(Burst(now, m), now - cfg.interval);
      assert Burst(now, m) + [now] == Burst(now, m + 1);
    }
  }

  /** Exactly maxRate+1 requests of a burst get through: the limit the code enforces is one higher than
      the number it is given. */
  lemma BurstAdmitsOneMore(cfg: Config, now: int, k: nat)
    requires cfg.maxRate >= 0 && cfg.interval >= 0
    ensures Served(cfg, Burst(now, k)) == Burst(now, if k <= cfg.maxRate + 1 then k else cfg.maxRate + 1)
  {
    ServedIsHistory(cfg, Burst(now, k));
    BurstHistory(cfg, now, k);
  }

  // ----- Requests that reach the queue late -----

  /** No time lies more than lag before one that reached the queue earlier. Sorted is a lag of 0. */
  ghost predicate Late(times: seq<int>, lag: int) {
    forall i, j :: 0 <= i <= j < |times| ==> times[i] - times[j] <= lag
  }

  /** Some request so far came more than one interval after x. */
  ghost predicate Outdated(cfg: Config, times: seq<int>, x: int) {
    exists k :: 0 <= k < |times| && x < times[k] - cfg.interval
  }

  /** In whatever order the requests come, the queue is the end of what was let through, and all that it has
      forgotten was outdated. */
  ghost predicate ServedTail(cfg: Config, times: seq<int>, served: seq<int>, queue: seq<int>) {
    var gone := |served| - |queue|;
    0 <= gone && queue == served[gone..] && forall i :: 0 <= i < gone ==> Outdated(cfg, times, served[i])
  }

  lemma OutdatedStays(cfg: Config, times: seq<int>, now: int, served: seq<int>, queue: seq<int>)
    requires ServedTail(cfg, times, served, queue)
    ensures ServedTail(cfg, times + [now], served, queue)
  {
    forall i | 0 <= i < |served| - |queue|
      ensures Outdated(cfg, times + [now], served[i])
    {
      var k :| 0 <= k < |times| && served[i] < times[k] - cfg.interval;
      assert (times + [now])[k] == times[k];
    }
  }

  lemma TrimmedTail(cfg: Config, times: seq<int>, now: int, served: seq<int>, queue: seq<int>)
    requires ServedTail(cfg, times, served, queue)
    ensures ServedTail(cfg, times + [now], served, Evicted(queue, now - cfg.interval))
  {
    OutdatedStays(cfg, times, now, served, queue);
    var kept, gone := Evicted(queue, now - cfg.interval), |served| - |queue|;
    EvictedIsTail(queue, now - cfg.interval);
    forall i | gone <= i < |served| - |kept|
      ensures Outdated(cfg, times + [now], served[i])
    {
      assert served[i] == queue[i - gone] < (times + [now])[|times|] - cfg.interval;
    }
  }

  lemma {:induction false} QueueIsServedTail(cfg: Config, times: seq<int>)
    ensures ServedTail(cfg, times, Served(cfg, times), Queue(cfg, times))
  {
    hide ServedTail, Evicted;
    if times == [] {
      NothingServed(cfg);
    } else {
      var n := |times| - 1;
      var before, now := times[..n], times[n];
      assert before + [now] == times;
      var served, queue := Served(cfg, before), Queue(cfg, before);
      QueueIsServedTail(cfg, before);
      OutdatedStays(cfg, before, now, served, queue);
      TrimmedTail(cfg, before, now, served, queue);
      PushedTail(cfg, times, now, served, queue);
      PushedTail(cfg, times, now, served, Evicted(queue, now - cfg.interval));
      assert served + [] == served;
    }
  }

  lemma NothingServed(cfg: Config)
    ensures ServedTail(cfg, [], Served(cfg, []), Queue(cfg, []))
  {
  }

  lemma PushedTail(cfg: Config, times: seq<int>, now: int, served: seq<int>, queue: seq<int>)
    ensures ServedTail(cfg, times, served, queue) ==> ServedTail(cfg, times, served + [now], queue + [now])
  {
  }

  /** With only times before lo in its first g places, a list has at most the others in the interval. */
  lemma {:induction false} BetweenTail(s: seq<int>, g: nat, lo: int, hi: int)
    requires g <= |s| && forall i :: 0 <= i < g ==> s[i] < lo
    ensures Between(s, lo, hi) <= |s| - g
  {
    if s != [] {
      BetweenTail(s[..|s| - 1], if g < |s| then g else |s| - 1, lo, hi);
    }
  }

  lemma BetweenPush(s: seq<int>, now: int, lo: int, hi: int)
    ensures Between(s + [now], lo, hi) == Between(s, lo, hi) + if lo <= now <= hi then 1 else 0
  {
    assert (s + [now])[..|s|] == s;
  }

  ghost predicate OneMoreAtMost(cfg: Config, times: seq<int>, lo: int, u: int) {
    Between(Served(cfg, times), lo, lo + u) <= cfg.maxRate + 1
  }

  /** In the u nanoseconds that end the window no request's lateness has cost the queue its memory. */
  lemma {:induction false} LateAtMostOneMore(cfg: Config, times: seq<int>, lag: int, lo: int, u: int)
    requires cfg.maxRate >= 0 && Late(times, lag) && u <= cfg.interval - lag
    ensures OneMoreAtMost(cfg, times, lo, u)
  {
    hide Admit, Between;
    if times == [] {
      BetweenTail([], 0, lo, lo + u);
    } else {
      var n := |times| - 1;
      var now := times[n];
      LateAtMostOneMore(cfg, times[..n], lag, lo, u);
      if lo <= now <= lo + u {
        QueueIsServedTail(cfg, times);
        QueueIsShort(cfg, times);
        var served := Served(cfg, times);
        forall i | 0 <= i < |served| - |Queue(cfg, times)|
          ensures served[i] < lo
        {
          var k :| 0 <= k < |times| && served[i] < times[k] - cfg.interval;
          assert times[k] - times[n] <= lag;
        }
        BetweenTail(served, |served| - |Queue(cfg, times)|, lo, lo + u);
      } else {
        BetweenPush(Served(cfg, times[..n]), now, lo, lo + u);
        assert Served(cfg, times[..n]) + [] == Served(cfg, times[..n]);
      }
    }
  }

  ghost function LastOf(s: seq<int>): seq<int> {
    if s == [] then [] else [s[|s| - 1]]
  }

  lemma ZeroRateStep(cfg: Config, s: seq<int>, now: int)
    requires cfg.maxRate == 0
    ensures Admit(cfg, LastOf(s), now)
         == if s != [] && s[|s| - 1] >= now - cfg.interval then (LastOf(s), false) else ([now], true)
  {
    var kept := Evicted(LastOf(s), now - cfg.interval);
    EvictedIsTail(LastOf(s), now - cfg.interval);
    assert |kept| == |LastOf(s)| ==> kept == LastOf(s);
    assert [] + [now] == [now];
  }

  /** With a rate of 0 the queue is the last request let through, and the next has to come more than one
      interval after it. */
  lemma {:induction false} ZeroRate(cfg: Config, times: seq<int>, lo: int, u: int)
    requires cfg.maxRate == 0 && 0 <= u <= cfg.interval
    ensures var s := Served(cfg, times);
            && Queue(cfg, times) == LastOf(s)
            && (forall i :: 0 <= i < |s| ==> s[i] <= s[|s| - 1])
            && Between(s, lo, lo + u) <= 1
  {
    hide Between, Admit;
    if times == [] {
      BetweenTail([], 0, lo, lo + u);
    } else {
      var n := |times| - 1;
      var now, s := times[n], Served(cfg, times[..n]);
      ZeroRate(cfg, times[..n], lo, u);
      ZeroRateStep(cfg, s, now);
      assert s + [] == s;
      BetweenPush(s, now, lo, lo + u);
      if lo <= now <= lo + u && (s == [] || s[|s| - 1] < now - cfg.interval) {
        BetweenTail(s, |s|, lo, lo + u);
      }
    }
  }

  /** maxRate+1 requests at 0, one that makes the queue forget them, and one late by at most lag. */
  ghost function Straggler(cfg: Config, lag: nat): (times: seq<int>)
    ensures |times| == if cfg.maxRate < 0 then 2 else cfg.maxRate + 3
  {
    Burst(0, if cfg.maxRate < 0 then 0 else cfg.maxRate + 1)
    + [cfg.interval + 1] + [if cfg.interval + 1 < lag then 0 else cfg.interval + 1 - lag]
  }

  lemma {:induction false} BurstBetween(now: int, k: nat, lo: int, hi: int)
    requires lo <= now <= hi
    ensures Between(Burst(now, k), lo, hi) == k
  {
    if k > 0 {
      BurstBetween(now, k - 1, lo, hi);
      assert Burst(now, k)[..k - 1] == Burst(now, k - 1);
    }
  }

  lemma FirstForgotten(cfg: Config, times: seq<int>, served: seq<int>, queue: seq<int>)
    requires ServedTail(cfg, times, served, queue)
    ensures |queue| < |served| ==> Outdated(cfg, times, served[0])
  {
  }

  /** None of a burst is forgotten before it is over. */
  lemma BurstQueued(cfg: Config, k: nat)
    requires cfg.maxRate >= 0 && cfg.interval >= 0 && k <= cfg.maxRate + 1
    ensures Served(cfg, Burst(0, k)) == Queue(cfg, Burst(0, k)) == Burst(0, k)
  {
    BurstAdmitsOneMore(cfg, 0, k);
    QueueIsServedTail(cfg, Burst(0, k));
    assert !Outdated(cfg, Burst(0, k), 0);
    var served, queue := Served(cfg, Burst(0, k)), Queue(cfg, Burst(0, k));
    FirstForgotten(cfg, Burst(0, k), served, queue);
    assert |queue| == k && served[0..] == served;
  }

  lemma AllEvicted(queue: seq<int>, from: int)
    requires forall i :: 0 <= i < |queue| ==> queue[i] < from
    ensures Evicted(queue, from) == []
  {
    EvictedIsTail(queue, from);
  }

  lemma ServeNext(cfg: Config, times: seq<int>, now: int)
    ensures var a := Admit(cfg, Queue(cfg, times), now);
            && Queue(cfg, times + [now]) == a.0
            && Served(cfg, times + [now]) == Served(cfg, times) + if a.1 then [now] else []
  {
    assert (times + [now])[..|times|] == times;
  }

  lemma StragglerIsLate(cfg: Config, lag: nat)
    requires cfg.maxRate >= 1 && cfg.interval >= 0
    ensures Late(Straggler(cfg, lag), lag)
  {
  }

  lemma OneQueued(cfg: Config, now: int, late: int)
    requires cfg.maxRate >= 1 && cfg.interval >= 0 && late <= now
    ensures Admit(cfg, [now], late) == ([now, late], true)
  {
    assert Evicted([now], late - cfg.interval) == [now];
    assert [now] + [late] == [now, late];
  }

  lemma StragglerPasses(cfg: Config, lag: nat)
    requires cfg.maxRate >= 1 && cfg.interval >= 0
    ensures Served(cfg, Straggler(cfg, lag)) == Straggler(cfg, lag)
  {
    hide Admit, Served, Queue;
    var burst, next := Burst(0, cfg.maxRate + 1), cfg.interval + 1;
    var late := if next < lag then 0 else next - lag;
    BurstQueued(cfg, cfg.maxRate + 1);
    ServeNext(cfg, burst, next);
    AfterBurst(cfg);
    ServeNext(cfg, burst + [next], late);
    OneQueued(cfg, next, late);
  }

  /** One interval later the burst is forgotten. */
  lemma AfterBurst(cfg: Config)
    requires cfg.maxRate >= 0 && cfg.interval >= 0
    ensures Admit(cfg, Burst(0, cfg.maxRate + 1), cfg.interval + 1) == ([cfg.interval + 1], true)
  {
    AllEvicted(Burst(0, cfg.maxRate + 1), 1);
    assert [] + [cfg.interval + 1] == [cfg.interval + 1];
  }

  /** How late requests may come: for lists of requests none of which is more than lag late, the bound of
      maxRate+1 holds in every closed interval of length u, in every run, exactly when u is at most the
      window less the lag. With a rate of 0 lateness does no harm. */
  lemma AtMostOneMoreIff(cfg: Config, lag: nat, u: nat)
    requires cfg.maxRate >= 0 && cfg.interval >= 0
    ensures (forall times, lo :: Late(times, lag) ==> OneMoreAtMost(cfg, times, lo, u))
       <==> u <= cfg.interval - if cfg.maxRate == 0 then 0 else lag
  {
    hide OneMoreAtMost, Late;
    if u <= cfg.interval - if cfg.maxRate == 0 then 0 else lag {
      forall times, lo | Late(times, lag)
        ensures OneMoreAtMost(cfg, times, lo, u)
      {
        WithinTheLag(cfg, times, lag, lo, u);
      }
    } else {
      var times := BeyondTheLag(cfg, lag, u);
      assert !OneMoreAtMost(cfg, times, 0, u);
    }
  }

  lemma WithinTheLag(cfg: Config, times: seq<int>, lag: nat, lo: int, u: nat)
    requires cfg.maxRate >= 0 && Late(times, lag) && u <= cfg.interval - if cfg.maxRate == 0 then 0 else lag
    ensures OneMoreAtMost(cfg, times, lo, u)
  {
    if cfg.maxRate == 0 {
      ZeroRate(cfg, times, lo, u);
    } else {
      LateAtMostOneMore(cfg, times, lag, lo, u);
    }
  }

  lemma BeyondTheLag(cfg: Config, lag: nat, u: nat) returns (times: seq<int>)
    requires cfg.maxRate >= 0 && cfg.interval >= 0 && u > cfg.interval - if cfg.maxRate == 0 then 0 else lag
    ensures Late(times, lag) && !OneMoreAtMost(cfg, times, 0, u)
  {
    var burst, next := Burst(0, cfg.maxRate + 1), cfg.interval + 1;
    BurstBetween(0, cfg.maxRate + 1, 0, u);
    BetweenPush(burst, next, 0, u);
    if cfg.maxRate == 0 {
      times := burst + [next];
      BurstQueued(cfg, 1);
      AfterBurst(cfg);
      ServeNext(cfg, burst, next);
    } else {
      times := Straggler(cfg, lag);
      StragglerIsLate(cfg, lag);
      StragglerPasses(cfg, lag);
      BetweenPush(burst + [next], times[|times| - 1], 0, u);
    }
  }

  /** For requests in time order no closed interval as long as the window ever holds more than maxRate+1
      that the code lets through. */
  lemma AtMostOneMore(cfg: Config, times: seq<int>, lo: int)
    requires cfg.maxRate >= 0 && Sorted(times)
    ensures Between(Served(cfg, times), lo, lo + cfg.interval) <= cfg.maxRate + 1
  {
    LateAtMostOneMore(cfg, times, 0, lo, cfg.interval);
  }

  /** The order matters: a request that reaches the queue late finds forgotten what was in its window. With
      a rate of 1 three of the four requests below fall within one window and all are let through. */
  lemma OutOfOrderAdmitsMore()
    ensures var cfg, times := Config(1, 10), [85, 85, 100, 86];
            Served(cfg, times) == times && Between(times, 85, 85 + cfg.interval) == 3
  {
    var cfg, times := Config(1, 10), [85, 85, 100, 86];
    assert times[..3] == [85, 85, 100] && times[..2] == [85, 85] && times[..1] == [85];
    assert times[..3][..2] == times[..2] && times[..2][..1] == times[..1] && times[..1][..0] == [];
    assert Queue(cfg, times[..1]) == [85] && Served(cfg, times[..1]) == [85];
    assert Queue(cfg, times[..2]) == [85, 85] && Served(cfg, times[..2]) == [85, 85];
    assert Evicted([85, 85], 90) == Evicted([85], 90) == [];
    assert Queue(cfg, times[..3]) == [100] && Served(cfg, times[..3]) == [85, 85, 100];
    assert Between(times[..1], 85, 95) == 1;
    assert Between(times[..2], 85, 95) == 2;
    assert Between(times[..3], 85, 95) == 2;
  }

  // ----- When the limit itself holds -----

  function InWindow(cfg: Config, s: seq<int>, lo: int): nat {
    Between(s, lo, lo + cfg.interval)
  }

  ghost predicate KeepsLimit(cfg: Config, s: seq<int>) {
    forall lo :: InWindow(cfg, s, lo) <= cfg.maxRate
  }

  lemma {:induction false} BetweenIsSince(history: seq<int>, from: int, hi: int)
    requires forall i :: 0 <= i < |history| ==> history[i] <= hi
    ensures Between(history, from, hi) == Since(history, from)
  {
    if history != [] {
      BetweenIsSince(history[..|history| - 1], from, hi);
    }
  }

  lemma KeepsLimitPrefix(cfg: Config, s: seq<int>, more: seq<int>)
    requires |more| <= 1 && KeepsLimit(cfg, s + more)
    ensures KeepsLimit(cfg, s)
  {
    assert more == [] ==> s + more == s;
    assert more != [] ==> (s + more)[..|s|] == s;
    forall lo ensures InWindow(cfg, s, lo) <= cfg.maxRate {
      assert InWindow(cfg, s, lo) <= InWindow(cfg, s + more, lo) <= cfg.maxRate;
    }
  }

  /** The times of a history are those of requests made. */
  lemma HistoryIsPast(cfg: Config, times: seq<int>, now: int)
    requires Sorted(times + [now])
    ensures forall i :: 0 <= i < |History(cfg, times)| ==> History(cfg, times)[i] <= now
  {
    QueueIsTail(cfg, times, now);
    var n := |times| - 1;
    assert times != [] ==> times[n] == (times + [now])[n] <= (times + [now])[n + 1];
  }

  /** A limit that was kept was kept because nothing had to be rejected. */
  lemma {:induction false} KeptMeansAllPassed(cfg: Config, times: seq<int>)
    requires Sorted(times) && KeepsLimit(cfg, History(cfg, times))
    ensures History(cfg, times) == times
  {
    hide KeepsLimit, InWindow;
    if times != [] {
      var n := |times| - 1;
      var before, now := History(cfg, times[..n]), times[n];
      assert times[..n] + [now] == times;
      assert History(cfg, times) == before + if Passes(cfg, before, now) then [now] else [];
      KeepsLimitPrefix(cfg, before, if Passes(cfg, before, now) then [now] else []);
      KeptMeansAllPassed(cfg, times[..n]);
      HistoryIsPast(cfg, times[..n], now);
      RejectedMeansFull(cfg, before, now);
    }
  }

  lemma RejectedMeansFull(cfg: Config, history: seq<int>, now: int)
    requires forall i :: 0 <= i < |history| ==> history[i] <= now
    requires KeepsLimit(cfg, history)
    ensures Passes(cfg, history, now)
  {
    BetweenIsSince(history, now - cfg.interval, now);
    assert InWindow(cfg, history, now - cfg.interval) <= cfg.maxRate;
  }

  lemma {:induction false} HistoryAtMostTimes(cfg: Config, times: seq<int>, lo: int)
    ensures InWindow(cfg, History(cfg, times), lo) <= InWindow(cfg, times, lo)
  {
    hide Passes;
    if times != [] {
      var n := |times| - 1;
      var before := History(cfg, times[..n]);
      HistoryAtMostTimes(cfg, times[..n], lo);
      assert (before + [times[n]])[..|before|] == before;
    }
  }

  /** The limit as it is meant, at most maxRate admitted requests in any window, holds in exactly the runs
      whose requests already keep it: in those the limiter rejects nothing. Wherever it has to limit, one
      request too many gets through. */
  lemma LimitHoldsIff(cfg: Config, times: seq<int>)
    requires Sorted(times)
    ensures KeepsLimit(cfg, Served(cfg, times)) <==> KeepsLimit(cfg, times)
    ensures KeepsLimit(cfg, times) ==> Served(cfg, times) == times
  {
    hide InWindow;
    ServedIsHistory(cfg, times);
    if KeepsLimit(cfg, History(cfg, times)) {
      KeptMeansAllPassed(cfg, times);
    }
    if KeepsLimit(cfg, times) {
      forall lo ensures InWindow(cfg, History(cfg, times), lo) <= cfg.maxRate {
        HistoryAtMostTimes(cfg, times, lo);
      }
    }
  }

  /** Times further apart than the window: no window holds two. */
  lemma ApartKeepsLimit()
    ensures KeepsLimit(Config(1, 10), [100, 50, 30])
  {
    hide Between;
    var cfg := Config(1, 10);
    assert [] + [100] == [100] && [100] + [50] == [100, 50] && [100, 50] + [30] == [100, 50, 30];
    forall lo
      ensures InWindow(cfg, [100, 50, 30], lo) <= cfg.maxRate
    {
      BetweenTail([], 0, lo, lo + 10);
      BetweenPush([], 100, lo, lo + 10);
      BetweenPush([100], 50, lo, lo + 10);
      BetweenPush([100, 50], 30, lo, lo + 10);
    }
  }

  /** Out of time order a request may be rejected although no window of the run holds more than maxRate:
      the queue still holds what lies far ahead of it. */
  lemma LateIsRejected()
    ensures var cfg, times := Config(1, 10), [100, 50, 30];
            KeepsLimit(cfg, times) && Served(cfg, times) == [100, 50]
  {
    hide Between, KeepsLimit, Served, Queue;
    var cfg := Config(1, 10);
    ApartKeepsLimit();
    assert Queue(cfg, []) == [] && Served(cfg, []) == [] by {
      NothingYetServed(cfg);
    }
    ServeNext(cfg, [], 100);
    ServeNext(cfg, [100], 50);
    ServeNext(cfg, [100, 50], 30);
    assert [] + [100] == [100] && [100] + [50] == [100, 50] && [100, 50] + [30] == [100, 50, 30];
    assert [100, 50] + [] == [100, 50];
  }

  lemma NothingYetServed(cfg: Config)
    ensures Queue(cfg, []) == [] && Served(cfg, []) == []
  {
  }

  class SlideWindowLimiter {
    const cfg: Config
    var queue: seq<int>

    constructor (rate: int, interval: int)
      ensures cfg == Config(rate, interval) && queue == []
    {
      cfg := Config(rate, interval);
      queue := [];
    }

    /** The interceptor's critical section: true when the handler runs, false when onReject does. */
    method Intercept(current: int) returns (ok: bool)
      modifies this
      ensures (queue, ok) == Admit(cfg, old(queue), current)
    {
      if |queue| < cfg.maxRate {
        queue := queue + [current];
        return true;
      }
      var windowStartTime := current - cfg.interval;
      while queue != [] && queue[0] < windowStartTime
        invariant Evicted(queue, windowStartTime) == Evicted(old(queue), windowStartTime)
        decreases |queue|
      {
        queue := queue[1..];
      }
      if |queue| > cfg.maxRate {
        return false;
      }
      queue := queue + [current];
      return true;
    }
  }
}
