/**
 The Redis fixed window, ratelimit/lua/fix_window.lua, over a counter with an expiry time. A key is
 gone after its expiry time; at that very millisecond it may be gone or not, as tie says.
 */
module RedisFixWindow {
  import opened Prelude

  /** The window in milliseconds and the limit. */
  datatype Config = Config(window: int, limit: int)

  datatype Counter = Counter(value: int, expireAt: int)

  datatype Call = Call(now: int, tie: bool)

  datatype Verdict = Limited | Admitted | Failed

  function Loaded(k: Option<Counter>, c: Call): Option<Counter> {
    if k.Some? && (k.value.expireAt < c.now || (k.value.expireAt == c.now && c.tie)) then None else k
  }

  /** The script: the key afterwards and the answer. SET with an expiry that is not positive is an error
      of the command, which ends the script. */
  function Script(cfg: Config, k: Option<Counter>, c: Call): (Option<Counter>, Verdict) {
    match Loaded(k, c)
    case None =>
      if cfg.limit < 1 then (None, Limited)
      else if cfg.window <= 0 then (None, Failed)
      else (Some(Counter(1, c.now + cfg.window)), Admitted)
    case Some(counter) =>
      if counter.value < cfg.limit then (Some(counter.(value := counter.value + 1)), Admitted)
      else (Some(counter), Limited)
  }

  function After(cfg: Config, calls: seq<Call>, n: nat): Option<Counter>
    requires n <= |calls|
  {
    if n == 0 then None else Script(cfg, After(cfg, calls, n - 1), calls[n - 1]).0
  }

  function Answer(cfg: Config, calls: seq<Call>, n: nat): Verdict
    requires n < |calls|
  {
    Script(cfg, After(cfg, calls, n), calls[n]).1
  }

  /** The requests admitted among calls i, i+1, ..., j-1. */
  ghost function AdmittedIn(cfg: Config, calls: seq<Call>, i: nat, j: nat): nat
    requires i <= j <= |calls|
  {
    if i == j then 0 else AdmittedIn(cfg, calls, i, j - 1) + if Answer(cfg, calls, j - 1).Admitted? then 1 else 0
  }

  ghost predicate Ordered(calls: seq<Call>) {
    forall i, j :: 0 <= i <= j < |calls| ==> calls[i].now <= calls[j].now
  }

  /** Call b creates the key that the first n calls leave behind. */
  ghost predicate Born(cfg: Config, calls: seq<Call>, b: nat, n: nat)
    requires b < n <= |calls|
  {
    && Loaded(After(cfg, calls, b), calls[b]).None?
    && After(cfg, calls, b + 1).Some?
    && forall i :: b < i < n ==> Loaded(After(cfg, calls, i), calls[i]).Some?
  }

  lemma LoadedIsSame(k: Option<Counter>, c: Call)
    ensures Loaded(k, c).Some? ==> Loaded(k, c) == k
  {
  }

  /** The counter of a key is the number of requests admitted in its lifetime, starting with the call
      that created it, and never exceeds the limit; the key expires one window after that call. */
  lemma {:induction false} CountsItsLifetime(cfg: Config, calls: seq<Call>, b: nat, n: nat)
    requires b < n <= |calls| && Born(cfg, calls, b, n)
    ensures After(cfg, calls, n).Some?
    ensures var k := After(cfg, calls, n).value;
      && k.value == AdmittedIn(cfg, calls, b, n) <= cfg.limit
      && k.expireAt == calls[b].now + cfg.window
    decreases n
  {
    hide Loaded;
    assert AdmittedIn(cfg, calls, b, b) == 0;
    if n > b + 1 {
      assert Born(cfg, calls, b, n - 1);
      CountsItsLifetime(cfg, calls, b, n - 1);
      LoadedIsSame(After(cfg, calls, n - 1), calls[n - 1]);
    }
  }

  lemma {:induction false} SomeoneBore(cfg: Config, calls: seq<Call>, n: nat) returns (b: nat)
    requires n <= |calls| && After(cfg, calls, n).Some?
    ensures b < n && Born(cfg, calls, b, n)
    decreases n
  {
    if Loaded(After(cfg, calls, n - 1), calls[n - 1]).None? {
      b := n - 1;
    } else {
      b := SomeoneBore(cfg, calls, n - 1);
    }
  }

  /** At any moment a key that exists has counted some lifetime exactly. */
  lemma CounterIsHonest(cfg: Config, calls: seq<Call>, n: nat) returns (b: nat)
    requires n <= |calls| && After(cfg, calls, n).Some?
    ensures b < n && Born(cfg, calls, b, n)
    ensures After(cfg, calls, n).value.value == AdmittedIn(cfg, calls, b, n) <= cfg.limit
  {
    b := SomeoneBore(cfg, calls, n);
    CountsItsLifetime(cfg, calls, b, n);
  }

  /** Call n falls in the lifetime that call b began: b created the key, nothing has replaced it, and one
      window after b has not passed. */
  ghost predicate InLifetime(cfg: Config, calls: seq<Call>, b: nat, n: nat)
    requires n < |calls|
  {
    && b < n && Born(cfg, calls, b, n)
    && (calls[n].now < calls[b].now + cfg.window || (calls[n].now == calls[b].now + cfg.window && !calls[n].tie))
  }

  /** The answer: a call is limited exactly when the limit is below 1, or when the lifetime it falls in has
      already admitted limit requests. With a limit but no window it fails, and otherwise it is admitted. */
  lemma LimitedIff(cfg: Config, calls: seq<Call>, n: nat)
    requires n < |calls|
    ensures Answer(cfg, calls, n) == Limited <==>
      cfg.limit < 1 || exists b :: InLifetime(cfg, calls, b, n) && AdmittedIn(cfg, calls, b, n) >= cfg.limit
    ensures Answer(cfg, calls, n) == Failed <==> cfg.limit >= 1 && cfg.window <= 0
  {
    var k := After(cfg, calls, n);
    if k.Some? {
      var b := SomeoneBore(cfg, calls, n);
      CountsItsLifetime(cfg, calls, b, n);
      assert InLifetime(cfg, calls, b, n) <==> Loaded(k, calls[n]).Some?;
      forall a: nat | InLifetime(cfg, calls, a, n)
        ensures AdmittedIn(cfg, calls, a, n) == k.value.value && Loaded(k, calls[n]).Some?
      {
        CountsItsLifetime(cfg, calls, a, n);
      }
    } else {
      forall a: nat | InLifetime(cfg, calls, a, n)
        ensures false
      {
        CountsItsLifetime(cfg, calls, a, n);
      }
    }
    if cfg.window <= 0 {
      NoKeyEver(cfg, calls, n, n);
    }
    Wellformedness(cfg, calls, n);
  }

  ghost predicate Wellformed(cfg: Config, k: Option<Counter>) {
    k.Some? ==> 1 <= k.value.value <= cfg.limit
  }

  /** The two points in time are less than one window apart, or no more than that if a key is still alive
      at its expiry time, as Redis has it. */
  ghost predicate Near(cfg: Config, calls: seq<Call>, from: int, to: int) {
    to - from < cfg.window || (to - from == cfg.window && forall n :: 0 <= n < |calls| ==> !calls[n].tie)
  }

  /** Inside such a span at most one key is created. What the span admits fits in the
      counter, less the creating call, unless it saw a creation; then it fits in the counter plus what a
      full key admits after its creation. */
  lemma {:induction false} OneBirthAtMost(cfg: Config, calls: seq<Call>, i: nat, j: nat)
    requires Ordered(calls) && cfg.limit >= 1 && i <= j <= |calls|
    requires i < j ==> Near(cfg, calls, calls[i].now, calls[j - 1].now)
    ensures Wellformed(cfg, After(cfg, calls, j))
    ensures var k, a := After(cfg, calls, j), AdmittedIn(cfg, calls, i, j);
      || a <= (if k.Some? then k.value.value - 1 else 0)
      || (i < |calls| && k.Some? && k.value.expireAt >= calls[i].now + cfg.window && a <= cfg.limit - 1 + k.value.value)
    decreases j
  {
    if j == i {
      Wellformedness(cfg, calls, j);
    } else {
      OneBirthAtMost(cfg, calls, i, j - 1);
    }
  }

  lemma {:induction false} Wellformedness(cfg: Config, calls: seq<Call>, n: nat)
    requires n <= |calls|
    ensures Wellformed(cfg, After(cfg, calls, n))
    decreases n
  {
    if n > 0 {
      Wellformedness(cfg, calls, n - 1);
    }
  }

  /** Any span of one window admits less than twice the limit: every half-open one, and if keys live up to
      their expiry time every closed one. */
  lemma LessThanTwicePerWindow(cfg: Config, calls: seq<Call>, i: nat, j: nat)
    requires Ordered(calls) && i < j <= |calls|
    requires Near(cfg, calls, calls[i].now, calls[j - 1].now)
    ensures AdmittedIn(cfg, calls, i, j) <= if cfg.limit < 1 then 0 else 2 * cfg.limit - 1
  {
    if cfg.limit < 1 {
      NothingAdmitted(cfg, calls, i, j);
    } else {
      OneBirthAtMost(cfg, calls, i, j);
    }
  }

  /** One call that creates the key, the rest of the limit in the key's last millisecond, and a full
      limit in the next. */
  ghost function Edge(cfg: Config): (calls: seq<Call>)
    requires cfg.limit >= 1 && cfg.window >= 1
    ensures |calls| == 2 * cfg.limit && Ordered(calls)
  {
    seq(2 * cfg.limit,
        i => Call(if i == 0 then 0 else if i < cfg.limit then cfg.window else cfg.window + 1, false))
  }

  lemma {:induction false} EdgeAdmitsAll(cfg: Config, n: nat)
    requires cfg.limit >= 1 && cfg.window >= 1 && 1 <= n <= 2 * cfg.limit
    ensures After(cfg, Edge(cfg), n) == Some(if n <= cfg.limit then Counter(n, cfg.window)
                                             else Counter(n - cfg.limit, 2 * cfg.window + 1))
    ensures AdmittedIn(cfg, Edge(cfg), 1, n) == n - 1
    decreases n
  {
    if n == 1 {
      assert After(cfg, Edge(cfg), 0) == None;
    } else {
      EdgeAdmitsAll(cfg, n - 1);
    }
  }

  /** The bound is exact: for every limit and every window of two milliseconds or more, two neighbouring
      milliseconds may admit 2*limit-1 requests. */
  lemma LessThanTwiceIsAttained(cfg: Config)
    requires cfg.limit >= 1 && cfg.window >= 2
    ensures exists calls: seq<Call>, j: nat ::
      && 1 < j <= |calls| && Ordered(calls) && calls[j - 1].now - calls[1].now <= 1
      && AdmittedIn(cfg, calls, 1, j) == 2 * cfg.limit - 1
  {
    EdgeAdmitsAll(cfg, 2 * cfg.limit);
  }

  /** Requests i to j-1, made within one window, of which no more than limit pass. */
  ghost predicate KeepsLimit(cfg: Config, calls: seq<Call>, i: nat, j: nat) {
    Ordered(calls) && i < j <= |calls| && Near(cfg, calls, calls[i].now, calls[j - 1].now)
    ==> AdmittedIn(cfg, calls, i, j) <= if cfg.limit < 0 then 0 else cfg.limit
  }

  /** The limit itself is kept in every span of one window exactly when it is at most 1, or when the window
      is not positive and nothing passes at all. */
  lemma KeepsLimitIff(cfg: Config)
    ensures (forall calls, i, j :: KeepsLimit(cfg, calls, i, j)) <==> cfg.limit <= 1 || cfg.window <= 0
  {
    if cfg.limit <= 1 || cfg.window <= 0 {
      forall calls: seq<Call>, i: nat, j: nat
        ensures KeepsLimit(cfg, calls, i, j)
      {
        if Ordered(calls) && i < j <= |calls| && Near(cfg, calls, calls[i].now, calls[j - 1].now) {
          if cfg.window <= 0 {
            NoKeyEver(cfg, calls, i, j);
          } else {
            LessThanTwicePerWindow(cfg, calls, i, j);
          }
        }
      }
    } else {
      EdgeAdmitsAll(cfg, 2 * cfg.limit);
      assert !KeepsLimit(cfg, Edge(cfg), 1, 2 * cfg.limit);
    }
  }

  lemma {:induction false} NoKeyEver(cfg: Config, calls: seq<Call>, i: nat, j: nat)
    requires cfg.window <= 0 && i <= j <= |calls|
    ensures After(cfg, calls, j) == None && AdmittedIn(cfg, calls, i, j) == 0
    decreases j
  {
    if i < j {
      NoKeyEver(cfg, calls, i, j - 1);
    } else if j > 0 {
      NoKeyEver(cfg, calls, i - 1, j - 1);
    }
  }

  /** For closed spans that condition matters: if a key may go at its expiry time before or after a call
      of the same millisecond, a limit of 2 lets 5 requests into a closed window of 2. */
  lemma TiesAdmitMore()
    ensures var cfg, calls := Config(2, 2), [Call(0, false), Call(2, false), Call(2, true), Call(2, false),
                                             Call(4, true), Call(4, false)];
            Ordered(calls) && calls[5].now - calls[1].now == cfg.window && AdmittedIn(cfg, calls, 1, 6) == 5
  {
    var cfg, calls := Config(2, 2), [Call(0, false), Call(2, false), Call(2, true), Call(2, false),
                                     Call(4, true), Call(4, false)];
    assert After(cfg, calls, 0) == None;
    assert After(cfg, calls, 1) == Some(Counter(1, 2));
    assert After(cfg, calls, 2) == Some(Counter(2, 2));
    assert After(cfg, calls, 3) == Some(Counter(1, 4));
    assert After(cfg, calls, 4) == Some(Counter(2, 4));
    assert After(cfg, calls, 5) == Some(Counter(1, 6));
    assert AdmittedIn(cfg, calls, 1, 3) == 2;
    assert AdmittedIn(cfg, calls, 1, 5) == 4;
  }

  lemma {:induction false} NothingAdmitted(cfg: Config, calls: seq<Call>, i: nat, j: nat)
    requires cfg.limit < 1 && i <= j <= |calls|
    ensures AdmittedIn(cfg, calls, i, j) == 0
    decreases j
  {
    if i < j {
      NothingAdmitted(cfg, calls, i, j - 1);
      Wellformedness(cfg, calls, j - 1);
    }
  }

  class Redis {
    var key: Option<Counter>

    constructor ()
      ensures key == None
    {
      key := None;
    }

    /** The script command by command; Limited is the answer "true", Admitted the answer "false". */
    method Eval(cfg: Config, c: Call) returns (answer: Verdict)
      modifies this
      ensures (key, answer) == Script(cfg, old(key), c)
    {
      key := Loaded(key, c);
      if key.None? {
        if cfg.limit < 1 {
          return Limited;
        }
        if cfg.window <= 0 {
          return Failed;
        }
        key := Some(Counter(1, c.now + cfg.window));
        return Admitted;
      }
      if key.value.value < cfg.limit {
        key := Some(key.value.(value := key.value.value + 1));
        return Admitted;
      }
      return Limited;
    }
  }
}
