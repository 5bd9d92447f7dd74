/**
 The Redis sliding window, ratelimit/lua/slide_window.lua, over a sorted set whose members are their
 own scores, so a set of milliseconds. The limiter and Redis share one clock that does not go back. A
 key is gone after its expiry time; at that very millisecond it may be gone or not (the parameter
 tie decides at each call), and the results hold either way.
 */
module RedisSlideWindow {
  import opened Prelude

  datatype Config = Config(threshold: int, window: int)

  /** The sorted set under the key, and its expiry time if one is set. No key is an empty set. */
  datatype Key = Key(members: set<int>, expireAt: Option<int>)

  const NO_KEY: Key := Key({}, None)

  /** One evaluation of the script: at time now, with tie for the case that now is the expiry time. */
  datatype Call = Call(now: int, tie: bool)

  predicate Expired(k: Key, c: Call) {
    k.expireAt.Some? && (k.expireAt.value < c.now || (k.expireAt.value == c.now && c.tie))
  }

  function Loaded(k: Key, c: Call): Key {
    if Expired(k, c) then NO_KEY else k
  }

  /** ZREMRANGEBYSCORE key -inf min. */
  function Trimmed(members: set<int>, min: int): set<int> {
    set m | m in members && m > min
  }

  /** PEXPIRE: a time to live that is not positive deletes the key. */
  function Pexpire(k: Key, now: int, ttl: int): Key {
    if ttl <= 0 then NO_KEY else k.(expireAt := Some(now + ttl))
  }

  /** The script: the key afterwards and whether the request is let through. With expire false the last
      command is left out. Removing the last member deletes the key and its expiry. */
  function Script(cfg: Config, expire: bool, k: Key, c: Call): (Key, bool) {
    var loaded := Loaded(k, c);
    var members := Trimmed(loaded.members, c.now - cfg.window);
    var kept := if members == {} then NO_KEY else loaded.(members := members);
    if |members| >= cfg.threshold then (kept, false)
    else
      var added := kept.(members := members + {c.now});
      (if expire then Pexpire(added, c.now, cfg.window) else added, true)
  }

  /** The key after the calls. */
  function After(cfg: Config, expire: bool, calls: seq<Call>): Key {
    if calls == [] then NO_KEY
    else Script(cfg, expire, After(cfg, expire, calls[..|calls| - 1]), calls[|calls| - 1]).0
  }

  function Verdict(cfg: Config, expire: bool, calls: seq<Call>, c: Call): bool {
    Script(cfg, expire, After(cfg, expire, calls), c).1
  }

  /** The milliseconds at which some call was let through. */
  ghost function Admitted(cfg: Config, calls: seq<Call>): set<int> {
    if calls == [] then {}
    else
      var before, c := calls[..|calls| - 1], calls[|calls| - 1];
      if Verdict(cfg, true, before, c) then Admitted(cfg, before) + {c.now} else Admitted(cfg, before)
  }

  ghost predicate Ordered(calls: seq<Call>) {
    forall i, j :: 0 <= i <= j < |calls| ==> calls[i].now <= calls[j].now
  }

  ghost function LastTime(calls: seq<Call>, now: int): int {
    if calls == [] then now else calls[|calls| - 1].now
  }

  /** The keys of the two variants differ at most in members that every later call trims away: those
      that have reached the age of the window. */
  ghost predicate Same(cfg: Config, with_: Key, without: Key, last: int) {
    && without.expireAt.None?
    && with_.members <= without.members
    && (forall m :: m in without.members ==> m <= last)
    && (with_.expireAt.Some? ==> forall m :: m in without.members ==> m + cfg.window <= with_.expireAt.value)
    && (forall m :: m in without.members && m !in with_.members ==> m + cfg.window <= last)
  }

  lemma LoadedTrimsAlike(cfg: Config, with_: Key, without: Key, last: int, c: Call)
    requires Same(cfg, with_, without, last) && last <= c.now
    ensures var min := c.now - cfg.window;
            Trimmed(Loaded(with_, c).members, min) == Trimmed(Loaded(without, c).members, min)
  {
  }

  lemma StepStaysSame(cfg: Config, with_: Key, without: Key, last: int, c: Call)
    requires Same(cfg, with_, without, last) && last <= c.now
    ensures var a, b := Script(cfg, true, with_, c), Script(cfg, false, without, c);
            a.1 == b.1 && Same(cfg, a.0, b.0, c.now)
  {
    LoadedTrimsAlike(cfg, with_, without, last, c);
  }

  lemma {:induction false} StaysSame(cfg: Config, calls: seq<Call>, now: int)
    requires Ordered(calls) && (calls != [] ==> calls[|calls| - 1].now <= now)
    ensures Same(cfg, After(cfg, true, calls), After(cfg, false, calls), LastTime(calls, now))
    decreases |calls|
  {
    if calls != [] {
      var n := |calls| - 1;
      StaysSame(cfg, calls[..n], calls[n].now);
      StepStaysSame(cfg, After(cfg, true, calls[..n]), After(cfg, false, calls[..n]),
                    LastTime(calls[..n], calls[n].now), calls[n]);
    }
  }

  /** The script's last command changes no answer, ever, for any threshold and window. */
  lemma ExpiryIsInvisible(cfg: Config, calls: seq<Call>, c: Call)
    requires Ordered(calls + [c])
    ensures Verdict(cfg, true, calls, c) == Verdict(cfg, false, calls, c)
  {
    OrderedPrefix(calls, c);
    StaysSame(cfg, calls, c.now);
    StepStaysSame(cfg, After(cfg, true, calls), After(cfg, false, calls), LastTime(calls, c.now), c);
  }

  lemma OrderedPrefix(calls: seq<Call>, c: Call)
    requires Ordered(calls + [c])
    ensures Ordered(calls) && LastTime(calls, c.now) <= c.now
  {
    var all := calls + [c];
    assert forall i :: 0 <= i < |calls| ==> all[i] == calls[i];
    assert calls != [] ==> all[|calls| - 1].now <= all[|calls|].now;
  }

  /** What the set holds: every admitted millisecond that is not yet as old as the window. */
  ghost predicate Faithful(cfg: Config, calls: seq<Call>, members: set<int>, last: int) {
    && (forall m :: m in Admitted(cfg, calls) ==> m <= last)
    && (forall m :: m in members ==> m in Admitted(cfg, calls))
    && (forall m :: m in Admitted(cfg, calls) && m > last - cfg.window ==> m in members)
  }

  lemma {:induction false} WithoutExpiryFaithful(cfg: Config, calls: seq<Call>, now: int)
    requires Ordered(calls) && (calls != [] ==> calls[|calls| - 1].now <= now)
    ensures Faithful(cfg, calls, After(cfg, false, calls).members, LastTime(calls, now))
    ensures After(cfg, false, calls).expireAt.None?
    decreases |calls|
  {
    if calls != [] {
      var n := |calls| - 1;
      var before, c := calls[..n], calls[n];
      WithoutExpiryFaithful(cfg, before, c.now);
      assert before + [c] == calls;
      ExpiryIsInvisible(cfg, before, c);
    }
  }

  /** The members of the half-open window that ends at hi. */
  ghost function InWindow(s: set<int>, hi: int, window: int): set<int> {
    set m | m in s && hi - window < m <= hi
  }

  /** Before each decision the script has cut its set down to exactly the distinct admitted milliseconds
      of the half-open window that ends now. */
  lemma SetIsWindow(cfg: Config, calls: seq<Call>, c: Call)
    requires Ordered(calls + [c])
    ensures Trimmed(Loaded(After(cfg, true, calls), c).members, c.now - cfg.window)
         == InWindow(Admitted(cfg, calls), c.now, cfg.window)
  {
    OrderedPrefix(calls, c);
    StaysSame(cfg, calls, c.now);
    WithoutExpiryFaithful(cfg, calls, c.now);
    LoadedTrimsAlike(cfg, After(cfg, true, calls), After(cfg, false, calls), LastTime(calls, c.now), c);
  }

  /** The answer: a call is let through exactly when fewer than threshold distinct milliseconds of the
      half-open window that ends with it have seen an admission, for every threshold and window. */
  lemma LetThroughIff(cfg: Config, calls: seq<Call>, c: Call)
    requires Ordered(calls + [c])
    ensures Verdict(cfg, true, calls, c) <==> |InWindow(Admitted(cfg, calls), c.now, cfg.window)| < cfg.threshold
  {
    SetIsWindow(cfg, calls, c);
  }

  /** One call in each of the milliseconds 1 to n. */
  ghost function Stair(n: nat): (calls: seq<Call>)
    ensures |calls| == n && Ordered(calls)
  {
    seq(n, i => Call(i + 1, false))
  }

  ghost function Numbers(n: nat): (s: set<int>)
    ensures |s| == n && forall m :: m in s <==> 1 <= m <= n
  {
    if n == 0 then {} else Numbers(n - 1) + {n}
  }

  /** All threshold calls of a stair get through, and they lie in one window. */
  lemma {:induction false} StairPasses(cfg: Config, n: nat)
    requires n <= cfg.threshold <= cfg.window
    ensures Admitted(cfg, Stair(n)) == Numbers(n)
  {
    hide Verdict;
    if n > 0 {
      StairPasses(cfg, n - 1);
      assert Stair(n)[..n - 1] == Stair(n - 1) && Stair(n - 1) + [Call(n, false)] == Stair(n);
      LetThroughIff(cfg, Stair(n - 1), Call(n, false));
      assert InWindow(Numbers(n - 1), n, cfg.window) == Numbers(n - 1);
    }
  }

  /** The bound is exact: for every threshold that the window has milliseconds for, as many distinct
      milliseconds of one window are let through, and the next one of that window is not. */
  lemma ThresholdIsReached(cfg: Config)
    requires 0 <= cfg.threshold <= cfg.window
    ensures |InWindow(Admitted(cfg, Stair(cfg.threshold)), cfg.threshold, cfg.window)| == cfg.threshold
    ensures cfg.threshold < cfg.window ==>
      !Verdict(cfg, true, Stair(cfg.threshold), Call(cfg.threshold + 1, false))
  {
    hide Verdict, Admitted;
    var n := cfg.threshold;
    StairPasses(cfg, n);
    assert InWindow(Numbers(n), n, cfg.window) == Numbers(n);
    assert Stair(n) + [Call(n + 1, false)] == Stair(n + 1);
    LetThroughIff(cfg, Stair(n), Call(n + 1, false));
    assert n < cfg.window ==> InWindow(Numbers(n), n + 1, cfg.window) == Numbers(n);
  }

  /** So at most threshold distinct milliseconds of any window, wherever it lies, see an admission. */
  lemma {:induction false} ThresholdHolds(cfg: Config, calls: seq<Call>, hi: int)
    requires Ordered(calls) && cfg.threshold >= 0
    ensures |InWindow(Admitted(cfg, calls), hi, cfg.window)| <= cfg.threshold
    decreases |calls|
  {
    if calls != [] {
      var n := |calls| - 1;
      var before, c := calls[..n], calls[n];
      ThresholdHolds(cfg, before, hi);
      assert before + [c] == calls;
      if Verdict(cfg, true, before, c) && hi - cfg.window < c.now <= hi {
        RoomForOne(cfg, before, c, hi);
      } else {
        assert InWindow(Admitted(cfg, calls), hi, cfg.window) == InWindow(Admitted(cfg, before), hi, cfg.window);
      }
    }
  }

  /** An admission at a time inside a window finds fewer than threshold milliseconds in it. */
  lemma RoomForOne(cfg: Config, calls: seq<Call>, c: Call, hi: int)
    requires Ordered(calls + [c]) && Verdict(cfg, true, calls, c) && hi - cfg.window < c.now <= hi
    ensures |InWindow(Admitted(cfg, calls) + {c.now}, hi, cfg.window)| <= cfg.threshold
  {
    SetIsWindow(cfg, calls, c);
    AdmittedEarlier(cfg, calls, c);
    OneMore(Admitted(cfg, calls), c.now, hi, cfg.window);
  }

  lemma AdmittedEarlier(cfg: Config, calls: seq<Call>, c: Call)
    requires Ordered(calls + [c])
    ensures forall m :: m in Admitted(cfg, calls) ==> m <= c.now
  {
    OrderedPrefix(calls, c);
    WithoutExpiryFaithful(cfg, calls, c.now);
  }

  lemma OneMore(s: set<int>, now: int, hi: int, window: int)
    requires (forall m :: m in s ==> m <= now) && hi - window < now <= hi
    ensures |InWindow(s + {now}, hi, window)| <= |InWindow(s, now, window)| + 1
  {
    SubsetSize(InWindow(s + {now}, hi, window), InWindow(s, now, window) + {now});
  }

  /** k calls in one millisecond. */
  ghost function Burst(now: int, k: nat): (calls: seq<Call>)
    ensures |calls| == k
  {
    seq(k, i => Call(now, false))
  }

  /** Requests of one millisecond share a member, so with a threshold of two or more a burst is let
      through whole, however large; with a threshold of one only its first request is. */
  lemma {:induction false} BurstIsMerged(cfg: Config, now: int, k: nat)
    requires cfg.window > 0 && cfg.threshold >= 1
    ensures Verdict(cfg, true, Burst(now, k), Call(now, false)) <==> k == 0 || cfg.threshold >= 2
    ensures k > 0 ==> After(cfg, true, Burst(now, k)) == Key({now}, Some(now + cfg.window))
  {
    if k > 0 {
      BurstIsMerged(cfg, now, k - 1);
      assert Burst(now, k)[..k - 1] == Burst(now, k - 1);
      assert Trimmed({now}, now - cfg.window) == {now};
      assert Trimmed({}, now - cfg.window) == {};
    } else {
      assert Trimmed({}, now - cfg.window) == {};
    }
  }

  // ----- Requests instead of milliseconds -----

  /** The requests let through in the half-open window that ends at hi. */
  ghost function Requests(cfg: Config, calls: seq<Call>, hi: int): nat {
    if calls == [] then 0
    else
      var before, c := calls[..|calls| - 1], calls[|calls| - 1];
      Requests(cfg, before, hi) + if Verdict(cfg, true, before, c) && hi - cfg.window < c.now <= hi then 1 else 0
  }

  lemma {:induction false} RequestsLeaveTraces(cfg: Config, calls: seq<Call>, hi: int)
    ensures Requests(cfg, calls, hi) > 0 ==> InWindow(Admitted(cfg, calls), hi, cfg.window) != {}
  {
    hide Verdict;
    if calls != [] {
      var n := |calls| - 1;
      var before, c := calls[..n], calls[n];
      RequestsLeaveTraces(cfg, before, hi);
      if Requests(cfg, before, hi) > 0 {
        var m :| m in InWindow(Admitted(cfg, before), hi, cfg.window);
        assert m in InWindow(Admitted(cfg, calls), hi, cfg.window);
      } else if Requests(cfg, calls, hi) > 0 {
        assert c.now in InWindow(Admitted(cfg, calls), hi, cfg.window);
      }
    }
  }

  /** Under a threshold of at most one, an admission finds no other in any window around it. */
  lemma AloneInWindow(cfg: Config, calls: seq<Call>, c: Call, hi: int)
    requires Ordered(calls + [c]) && cfg.threshold <= 1
    requires Verdict(cfg, true, calls, c) && hi - cfg.window < c.now <= hi
    ensures cfg.threshold == 1 && Requests(cfg, calls, hi) == 0
  {
    SetIsWindow(cfg, calls, c);
    AdmittedEarlier(cfg, calls, c);
    RequestsLeaveTraces(cfg, calls, hi);
    var around := InWindow(Admitted(cfg, calls), c.now, cfg.window);
    assert |around| < cfg.threshold;
    assert around == {};
    assert forall m :: m in InWindow(Admitted(cfg, calls), hi, cfg.window) ==> m in around;
  }

  lemma {:induction false} AtMostOneRequest(cfg: Config, calls: seq<Call>, hi: int)
    requires Ordered(calls) && 0 <= cfg.threshold <= 1
    ensures Requests(cfg, calls, hi) <= cfg.threshold
    decreases |calls|
  {
    hide Verdict;
    if calls != [] {
      var n := |calls| - 1;
      assert calls[..n] + [calls[n]] == calls;
      AtMostOneRequest(cfg, calls[..n], hi);
      if Verdict(cfg, true, calls[..n], calls[n]) && hi - cfg.window < calls[n].now <= hi {
        AloneInWindow(cfg, calls[..n], calls[n], hi);
      }
    }
  }

  lemma {:induction false} NoWindowNoRequest(cfg: Config, calls: seq<Call>, hi: int)
    requires cfg.window <= 0
    ensures Requests(cfg, calls, hi) == 0
  {
    hide Verdict;
    if calls != [] {
      NoWindowNoRequest(cfg, calls[..|calls| - 1], hi);
    }
  }

  lemma {:induction false} BurstRequests(cfg: Config, now: int, k: nat)
    requires cfg.window > 0 && cfg.threshold >= 2
    ensures Requests(cfg, Burst(now, k), now) == k
  {
    hide Verdict;
    if k > 0 {
      BurstRequests(cfg, now, k - 1);
      BurstIsMerged(cfg, now, k - 1);
      assert Burst(now, k)[..k - 1] == Burst(now, k - 1);
    }
  }

  ghost predicate Bounded(cfg: Config, calls: seq<Call>, hi: int) {
    Requests(cfg, calls, hi) <= cfg.threshold
  }

  /** The threshold bounds the requests of every window, in every run, only when it is 0 or 1: a larger
      one bounds milliseconds. */
  lemma BoundsRequestsIff(cfg: Config)
    ensures (forall calls, hi :: Ordered(calls) ==> Bounded(cfg, calls, hi))
       <==> cfg.threshold >= 0 && (cfg.threshold <= 1 || cfg.window <= 0)
  {
    if cfg.threshold < 0 {
      assert Ordered([]) && !Bounded(cfg, [], 0);
    } else if cfg.threshold <= 1 || cfg.window <= 0 {
      forall calls, hi | Ordered(calls)
        ensures Bounded(cfg, calls, hi)
      {
        if cfg.window <= 0 {
          NoWindowNoRequest(cfg, calls, hi);
        } else {
          AtMostOneRequest(cfg, calls, hi);
        }
      }
    } else {
      BurstRequests(cfg, 0, cfg.threshold + 1);
      assert Ordered(Burst(0, cfg.threshold + 1)) && !Bounded(cfg, Burst(0, cfg.threshold + 1), 0);
    }
  }

  ghost predicate OnePerMillisecond(calls: seq<Call>) {
    forall i, j :: 0 <= i < j < |calls| ==> calls[i].now < calls[j].now
  }

  lemma {:induction false} RequestsAreMilliseconds(cfg: Config, calls: seq<Call>, hi: int)
    requires OnePerMillisecond(calls)
    ensures Requests(cfg, calls, hi) == |InWindow(Admitted(cfg, calls), hi, cfg.window)|
    ensures forall m :: m in Admitted(cfg, calls) ==> calls != [] && m <= calls[|calls| - 1].now
  {
    hide Verdict;
    if calls != [] {
      var n := |calls| - 1;
      var before, c := calls[..n], calls[n];
      RequestsAreMilliseconds(cfg, before, hi);
      var was, now := InWindow(Admitted(cfg, before), hi, cfg.window), InWindow(Admitted(cfg, calls), hi, cfg.window);
      assert before != [] ==> before[n - 1].now < c.now;
      if Verdict(cfg, true, before, c) && hi - cfg.window < c.now <= hi {
        assert now == was + {c.now} && c.now !in was;
      } else {
        assert now == was;
      }
    }
  }

  /** In a run that makes at most one request a millisecond the threshold does bound the requests of
      every window. */
  lemma SpacedRequestsAreBounded(cfg: Config, calls: seq<Call>, hi: int)
    requires OnePerMillisecond(calls) && cfg.threshold >= 0
    ensures Requests(cfg, calls, hi) <= cfg.threshold
  {
    RequestsAreMilliseconds(cfg, calls, hi);
    ThresholdHolds(cfg, calls, hi);
  }

  /** The script as it runs, command by command, against the key it is given. */
  class Redis {
    var key: Key

    constructor ()
      ensures key == NO_KEY
    {
      key := NO_KEY;
    }

    method Zremrangebyscore(min: int)
      modifies this
      ensures var kept := Trimmed(old(key).members, min);
              key == if kept == {} then NO_KEY else old(key).(members := kept)
    {
      key := key.(members := Trimmed(key.members, min));
      if key.members == {} {
        key := NO_KEY;
      }
    }

    /** True stands for the answer "true": the request is limited. */
    method Eval(cfg: Config, c: Call) returns (limited: bool)
      modifies this
      ensures (key, !limited) == Script(cfg, true, old(key), c)
    {
      key := Loaded(key, c);
      var min := c.now - cfg.window;
      Zremrangebyscore(min);
      var cnt := |key.members|;
      if cnt >= cfg.threshold {
        return true;
      }
      key := key.(members := key.members + {c.now});
      key := Pexpire(key, c.now, cfg.window);
      return false;
    }
  }
}
