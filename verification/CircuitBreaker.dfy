/** The per-node circuit breaker: closed, open with exponential backoff, half-open. Durations are integers. */
module CircuitBreaker {
  import opened Basics

  datatype BreakerState = Closed | Open | HalfOpen

  datatype Config = Config(failureThreshold: int, successThreshold: int, openDuration: int, maxOpenDuration: int)

  datatype Breaker = Breaker(state: BreakerState, fails: int, succs: int, openedAt: int, openDuration: int)

  datatype Op = Allow | Success | Failure

  /** An operation and the clock reading it sees. */
  datatype Event = Event(op: Op, at: int)

  function MinDuration(a: int, b: int): int {
    if a < b then a else b
  }

  function Fresh(cfg: Config): Breaker {
    Breaker(Closed, 0, 0, 0, cfg.openDuration)
  }

  // ---------- One step, as a function ----------

  predicate Allows(b: Breaker, now: int) {
    match b.state
    case Closed => true
    case Open => now - b.openedAt >= b.openDuration
    case HalfOpen => b.succs == 0
  }

  function AfterAllow(b: Breaker, now: int): Breaker {
    if b.state.Open? && Allows(b, now) then b.(state := HalfOpen, succs := 0) else b
  }

  function AfterSuccess(cfg: Config, b: Breaker): Breaker {
    var c := b.(fails := 0, succs := b.succs + 1);
    if c.state.HalfOpen? && c.succs >= cfg.successThreshold
    then c.(state := Closed, openDuration := cfg.openDuration)
    else c
  }

  function AfterFailure(cfg: Config, b: Breaker, now: int): Breaker {
    var c := b.(succs := 0, fails := b.fails + 1);
    match c.state
    case Closed => if c.fails >= cfg.failureThreshold then c.(state := Open, openedAt := now) else c
    case HalfOpen =>
      c.(state := Open, openedAt := now, openDuration := MinDuration(c.openDuration * 2, cfg.maxOpenDuration),
          fails := 0)
    case Open => c
  }

  function Step(cfg: Config, b: Breaker, e: Event): Breaker {
    match e.op
    case Allow => AfterAllow(b, e.at)
    case Success => AfterSuccess(cfg, b)
    case Failure => AfterFailure(cfg, b, e.at)
  }

  // ---------- The object ----------

  class NodeBreaker {
    const cfg: Config
    var state: BreakerState
    var consecutiveFails: int
    var consecutiveSuccs: int
    var openedAt: int
    var openDuration: int

    constructor (cfg: Config)
      ensures this.cfg == cfg && View() == Fresh(cfg)
    {
      this.cfg, state, consecutiveFails, consecutiveSuccs := cfg, Closed, 0, 0;
      openedAt, openDuration := 0, cfg.openDuration;
    }

    ghost function View(): Breaker
      reads this
    {
      Breaker(state, consecutiveFails, consecutiveSuccs, openedAt, openDuration)
    }

    method Allow(now: int) returns (ok: bool)
      modifies this
      ensures ok == Allows(old(View()), now) && View() == AfterAllow(old(View()), now)
    {
      match state {
        case Closed =>
          return true;
        case Open =>
          if now - openedAt >= openDuration {
            state := HalfOpen;
            consecutiveSuccs := 0;
            return true;
          }
          return false;
        case HalfOpen =>
          return consecutiveSuccs == 0;
      }
    }

    method RecordSuccess()
      modifies this
      ensures View() == AfterSuccess(cfg, old(View()))
    {
      consecutiveFails := 0;
      consecutiveSuccs := consecutiveSuccs + 1;
      if state == HalfOpen && consecutiveSuccs >= cfg.successThreshold {
        state := Closed;
        openDuration := cfg.openDuration;
      }
    }

    method RecordFailure(now: int)
      modifies this
      ensures View() == AfterFailure(cfg, old(View()), now)
    {
      consecutiveSuccs := 0;
      consecutiveFails := consecutiveFails + 1;
      match state {
        case Closed =>
          if consecutiveFails >= cfg.failureThreshold {
            state := Open;
            openedAt := now;
          }
        case HalfOpen =>
          state := Open;
          openedAt := now;
          openDuration := MinDuration(openDuration * 2, cfg.maxOpenDuration);
          consecutiveFails := 0;
        case Open =>
      }
    }

    /** Applies any interleaving of operations, in order. */
    method Replay(events: seq<Event>)
      modifies this
      requires View() == Fresh(cfg)
      ensures View() == After(cfg, events)
    {
      for i := 0 to |events|
        invariant View() == After(cfg, events[..i])
      {
        assert events[..i + 1][..i] == events[..i];
        match events[i].op {
          case Allow =>
            var _ := Allow(events[i].at);
          case Success =>
            RecordSuccess();
          case Failure =>
            RecordFailure(events[i].at);
        }
      }
      assert events[..|events|] == events;
    }
  }

  // ---------- Traces ----------

  /** The breaker after a trace of operations. */
  function After(cfg: Config, events: seq<Event>): Breaker {
    if events == [] then Fresh(cfg) else Step(cfg, After(cfg, events[..|events| - 1]), events[|events| - 1])
  }

  /** The breaker before operation i of the trace (after all of them, for i == |events|). */
  function At(cfg: Config, events: seq<Event>, i: nat): Breaker
    requires i <= |events|
  {
    After(cfg, events[..i])
  }

  lemma AtNext(cfg: Config, events: seq<Event>, i: nat)
    requires i < |events|
    ensures At(cfg, events, i + 1) == Step(cfg, At(cfg, events, i), events[i])
  {
    assert events[..i + 1][..i] == events[..i];
  }

  ghost predicate ClockRuns(events: seq<Event>) {
    forall i, j :: 0 <= i <= j < |events| ==> events[i].at <= events[j].at
  }

  // ---------- Cooldown ----------

  /** Operation j opened the breaker. */
  ghost predicate Opens(cfg: Config, events: seq<Event>, j: nat)
    requires j < |events|
  {
    !At(cfg, events, j).state.Open? && At(cfg, events, j + 1).state.Open?
  }

  lemma {:induction false} StaysOpen(cfg: Config, events: seq<Event>, j: nat, i: nat)
    requires ClockRuns(events) && j < i < |events| && Opens(cfg, events, j)
    requires events[i].at < events[j].at + At(cfg, events, j + 1).openDuration
    ensures At(cfg, events, i).state.Open?
    ensures At(cfg, events, i).openedAt == events[j].at
    ensures At(cfg, events, i).openDuration == At(cfg, events, j + 1).openDuration
  {
    if i == j + 1 {
      AtNext(cfg, events, j);
    } else {
      StaysOpen(cfg, events, j, i - 1);
      AtNext(cfg, events, i - 1);
    }
  }

  /** From the operation that opened the breaker until its cooldown has passed, every request is refused. */
  lemma NoRequestInCooldown(cfg: Config, events: seq<Event>, j: nat, i: nat)
    requires ClockRuns(events) && j < i < |events| && Opens(cfg, events, j)
    requires events[i].at < events[j].at + At(cfg, events, j + 1).openDuration
    ensures !Allows(At(cfg, events, i), events[i].at)
  {
    StaysOpen(cfg, events, j, i);
  }

  /** An open breaker lets a request through exactly once the cooldown since it last opened has passed. */
  lemma {:induction false} OpenSince(cfg: Config, events: seq<Event>, i: nat) returns (j: nat)
    requires i <= |events| && At(cfg, events, i).state.Open?
    ensures j < i && Opens(cfg, events, j) && forall m :: j < m <= i ==> At(cfg, events, m).state.Open?
    ensures At(cfg, events, i).openedAt == events[j].at
    ensures At(cfg, events, i).openDuration == At(cfg, events, j + 1).openDuration
    ensures forall t :: Allows(At(cfg, events, i), t) <==> t >= events[j].at + At(cfg, events, j + 1).openDuration
  {
    AtNext(cfg, events, i - 1);
    if At(cfg, events, i - 1).state.Open? {
      j := OpenSince(cfg, events, i - 1);
    } else {
      j := i - 1;
    }
  }

  // ---------- Failure counting ----------

  /** Failures since the last success; requests do not count. */
  function TrailingFailures(events: seq<Event>): nat {
    if events == [] then 0
    else
      var front, last := events[..|events| - 1], events[|events| - 1];
      match last.op
      case Allow => TrailingFailures(front)
      case Success => 0
      case Failure => TrailingFailures(front) + 1
  }

  /** A closed breaker has counted exactly the trailing failures, and if there are any they are below the threshold. */
  lemma {:induction false} ClosedCountsFailures(cfg: Config, events: seq<Event>)
    ensures After(cfg, events).state.Closed? ==>
              && After(cfg, events).fails == TrailingFailures(events)
              && (TrailingFailures(events) == 0 || TrailingFailures(events) < cfg.failureThreshold)
  {
    if events != [] {
      ClosedCountsFailures(cfg, events[..|events| - 1]);
    }
  }

  /** A closed breaker opens exactly on a failure that brings the trailing failures to the threshold. */
  lemma ClosedOpensExactly(cfg: Config, events: seq<Event>, j: nat)
    requires j < |events| && At(cfg, events, j).state.Closed?
    ensures Opens(cfg, events, j) <==>
              events[j].op.Failure? && TrailingFailures(events[..j + 1]) >= cfg.failureThreshold
  {
    AtNext(cfg, events, j);
    ClosedCountsFailures(cfg, events[..j]);
    assert events[..j + 1][..j] == events[..j];
  }

  /** A half-open breaker opens exactly on a failure. */
  lemma HalfOpenOpensExactly(cfg: Config, events: seq<Event>, j: nat)
    requires j < |events| && At(cfg, events, j).state.HalfOpen?
    ensures Opens(cfg, events, j) <==> events[j].op.Failure?
  {
    AtNext(cfg, events, j);
  }

  // ---------- Recovery ----------

  function Successes(events: seq<Event>): nat {
    if events == [] then 0
    else Successes(events[..|events| - 1]) + if events[|events| - 1].op.Success? then 1 else 0
  }

  ghost predicate LetsProbeThrough(cfg: Config, events: seq<Event>, h: nat)
    requires h < |events|
  {
    events[h].op.Allow? && At(cfg, events, h).state.Open? && At(cfg, events, h + 1).state.HalfOpen?
  }

  /** The success counter runs from the last failure, or the last probe let through by an open breaker. */
  lemma {:induction false} CountsSuccesses(cfg: Config, events: seq<Event>) returns (from: nat)
    ensures from <= |events| && After(cfg, events).succs == Successes(events[from..])
    ensures forall k :: from <= k < |events| ==> !events[k].op.Failure?
    ensures from > 0 ==> events[from - 1].op.Failure? || LetsProbeThrough(cfg, events, from - 1)
  {
    from := 0;
    if events != [] {
      var n := |events| - 1;
      var front := events[..n];
      assert events[..n + 1] == events;
      AtNext(cfg, events, n);
      if events[n].op.Failure? || (events[n].op.Allow? && After(cfg, events) != After(cfg, front)) {
        from := n + 1;
        assert events[from..] == [];
      } else {
        from := CountsSuccesses(cfg, front);
        assert events[from..][..|events[from..]| - 1] == front[from..];
        assert from > 0 ==> front[..from - 1] == events[..from - 1] && front[..from] == events[..from];
      }
    }
  }

  /** Operation h let the first probe through; since then the breaker has been half-open, without a failure, up to i. */
  ghost predicate ProbingSince(cfg: Config, events: seq<Event>, h: nat, i: nat)
    requires h < i <= |events|
  {
    && At(cfg, events, h).state.Open? && events[h].op.Allow?
    && (forall m :: h < m <= i ==> At(cfg, events, m).state.HalfOpen?)
    && (forall m :: h < m < i ==> !events[m].op.Failure?)
    && At(cfg, events, i).succs == Successes(events[h + 1..i])
  }

  lemma {:induction false} HalfOpenHistory(cfg: Config, events: seq<Event>, i: nat) returns (h: nat)
    requires i <= |events| && At(cfg, events, i).state.HalfOpen?
    ensures h < i && ProbingSince(cfg, events, h, i)
  {
    AtNext(cfg, events, i - 1);
    if At(cfg, events, i - 1).state.HalfOpen? {
      h := HalfOpenHistory(cfg, events, i - 1);
      assert events[h + 1..i][..i - h - 2] == events[h + 1..i - 1];
    } else {
      h := i - 1;
      assert events[h + 1..i] == [];
    }
  }

  /**
    The breaker closes only on a success that completes a run of SuccessThreshold successes, with no failure since it
    went half-open.
   */
  lemma ClosingNeedsSuccesses(cfg: Config, events: seq<Event>, i: nat) returns (h: nat)
    requires i < |events| && !At(cfg, events, i).state.Closed? && At(cfg, events, i + 1).state.Closed?
    ensures h < i && ProbingSince(cfg, events, h, i) && events[i].op.Success?
    ensures Successes(events[h + 1..i + 1]) >= cfg.successThreshold
    ensures Successes(events[h + 1..i]) == 0 || Successes(events[h + 1..i]) < cfg.successThreshold
  {
    AtNext(cfg, events, i);
    h := HalfOpenHistory(cfg, events, i);
    assert events[h + 1..i + 1][..i - h - 1] == events[h + 1..i];
    NotYetClosed(cfg, events, h, i);
  }

  lemma NotYetClosed(cfg: Config, events: seq<Event>, h: nat, i: nat)
    requires h < i <= |events| && ProbingSince(cfg, events, h, i)
    ensures Successes(events[h + 1..i]) < cfg.successThreshold || Successes(events[h + 1..i]) == 0
    decreases i
  {
    if i > h + 1 {
      AtNext(cfg, events, i - 1);
      assert events[h + 1..i][..i - h - 2] == events[h + 1..i - 1];
      if !events[i - 1].op.Success? {
        assert At(cfg, events, i - 1).succs == At(cfg, events, i).succs;
        assert ProbingSince(cfg, events, h, i - 1);
        NotYetClosed(cfg, events, h, i - 1);
      }
    }
  }

  /** Operation j opened the breaker, it has been open since, and at time t its cooldown is not over. */
  ghost predicate CoolingDown(cfg: Config, events: seq<Event>, j: nat, t: int)
    requires j < |events|
  {
    && Opens(cfg, events, j) && (forall m :: j < m <= |events| ==> At(cfg, events, m).state.Open?)
    && t < events[j].at + At(cfg, events, j + 1).openDuration
  }

  /** Operation h let a probe through, the breaker has been half-open since, and a success has been reported. */
  ghost predicate AwaitingProbes(cfg: Config, events: seq<Event>, h: nat)
    requires h < |events|
  {
    ProbingSince(cfg, events, h, |events|) && Successes(events[h + 1..]) > 0
  }

  /** After any trace a request is refused exactly while the breaker cools down or awaits more probes. */
  lemma RefusesExactly(cfg: Config, events: seq<Event>, t: int)
    ensures !Allows(After(cfg, events), t) <==>
              || (exists j :: 0 <= j < |events| && CoolingDown(cfg, events, j, t))
              || (exists h :: 0 <= h < |events| && AwaitingProbes(cfg, events, h))
  {
    var n := |events|;
    assert events[..n] == events && At(cfg, events, n) == After(cfg, events);
    match After(cfg, events).state {
      case Closed =>
      case Open =>
        var j := OpenSince(cfg, events, n);
        assert !Allows(After(cfg, events), t) <==> CoolingDown(cfg, events, j, t);
        forall k | 0 <= k < n && CoolingDown(cfg, events, k, t) ensures k == j {
        }
      case HalfOpen =>
        var h := HalfOpenHistory(cfg, events, n);
        assert events[h + 1..n] == events[h + 1..];
        assert !Allows(After(cfg, events), t) <==> AwaitingProbes(cfg, events, h);
        forall k | 0 <= k < n && AwaitingProbes(cfg, events, k) ensures !Allows(After(cfg, events), t) {
          assert events[k + 1..n] == events[k + 1..];
        }
    }
  }

  /**
    Once a probe has succeeded but not yet enough have, requests alone change nothing: every one is refused and the
    breaker stays as it is.
   */
  lemma {:induction false} HalfOpenWaitsForOutcomes(cfg: Config, b: Breaker, requests: seq<Event>)
    requires b.state.HalfOpen? && 0 < b.succs
    requires forall k :: 0 <= k < |requests| ==> requests[k].op.Allow?
    ensures forall k :: 0 <= k <= |requests| ==> StepAll(cfg, b, requests[..k]) == b
    ensures forall k :: 0 <= k < |requests| ==> !Allows(StepAll(cfg, b, requests[..k]), requests[k].at)
  {
    forall k | 0 <= k <= |requests| ensures StepAll(cfg, b, requests[..k]) == b {
      if k > 0 {
        HalfOpenWaitsForOutcomes(cfg, b, requests[..k - 1]);
        assert requests[..k][..k - 1] == requests[..k - 1];
        assert requests[..k - 1][..k - 1] == requests[..k - 1];
      }
    }
  }

  function StepAll(cfg: Config, b: Breaker, events: seq<Event>): Breaker {
    if events == [] then b else Step(cfg, StepAll(cfg, b, events[..|events| - 1]), events[|events| - 1])
  }

  /**
    Until a probe has returned, every request to a half-open breaker passes: any number of probes can be under way at
    once.
   */
  lemma {:induction false} ManyProbesAtOnce(cfg: Config, b: Breaker, requests: seq<Event>)
    requires b.state.HalfOpen? && b.succs == 0
    requires forall k :: 0 <= k < |requests| ==> requests[k].op.Allow?
    ensures StepAll(cfg, b, requests) == b
    ensures forall k :: 0 <= k < |requests| ==> Allows(StepAll(cfg, b, requests[..k]), requests[k].at)
  {
    if requests != [] {
      ManyProbesAtOnce(cfg, b, requests[..|requests| - 1]);
    }
    forall k | 0 <= k < |requests| ensures Allows(StepAll(cfg, b, requests[..k]), requests[k].at) {
      ManyProbesAtOnce(cfg, b, requests[..k]);
    }
  }

  /** Requests under way after the events, n of them before: each one that passes adds one, each outcome takes one. */
  function UnderWay(cfg: Config, b: Breaker, n: int, events: seq<Event>): int {
    if events == [] then n
    else
      var front, last := events[..|events| - 1], events[|events| - 1];
      UnderWay(cfg, b, n, front) +
      if !last.op.Allow? then -1 else if Allows(StepAll(cfg, b, front), last.at) then 1 else 0
  }

  /** Only successes are reported, each for a request under way. */
  ghost predicate AllSucceed(cfg: Config, b: Breaker, n: int, events: seq<Event>) {
    && (forall k :: 0 <= k < |events| ==> !events[k].op.Failure?)
    && forall k :: 0 <= k <= |events| ==> UnderWay(cfg, b, n, events[..k]) >= 0
  }

  /** The requests made before the first success, with the n under way from the start. */
  function BeforeFirstSuccess(n: int, events: seq<Event>): int {
    if events == [] then n
    else
      var front, last := events[..|events| - 1], events[|events| - 1];
      BeforeFirstSuccess(n, front) + if last.op.Allow? && Successes(front) == 0 then 1 else 0
  }

  lemma FrontSucceeds(cfg: Config, b: Breaker, n: int, events: seq<Event>)
    requires events != [] && AllSucceed(cfg, b, n, events)
    ensures AllSucceed(cfg, b, n, events[..|events| - 1]) && UnderWay(cfg, b, n, events) >= 0
  {
    var front := events[..|events| - 1];
    assert events[..|events|] == events;
    forall k | 0 <= k <= |front| ensures UnderWay(cfg, b, n, front[..k]) >= 0 {
      assert front[..k] == events[..k];
    }
  }

  /**
    Half-open, the breaker counts the successes of requests made before the first; closed, there were enough of those.
   */
  lemma {:induction false} RecoverySoFar(cfg: Config, b: Breaker, n: int, events: seq<Event>)
    requires b.state.HalfOpen? && b.succs == 0 && AllSucceed(cfg, b, n, events)
    ensures var c, s := StepAll(cfg, b, events), Successes(events);
            || (&& c.state.HalfOpen? && c.succs == s && (s == 0 || s < cfg.successThreshold)
                && UnderWay(cfg, b, n, events) == BeforeFirstSuccess(n, events) - s)
            || (c.state.Closed? && s > 0 && BeforeFirstSuccess(n, events) >= cfg.successThreshold)
  {
    if events != [] {
      FrontSucceeds(cfg, b, n, events);
      RecoverySoFar(cfg, b, n, events[..|events| - 1]);
      hide AllSucceed;
    }
  }

  /**
    If all requests under way and all that pass succeed and every one has returned, a half-open breaker has closed
    exactly when at least SuccessThreshold of them were made before the first success; otherwise it refuses every
    request.
   */
  lemma RecoversExactly(cfg: Config, b: Breaker, n: nat, events: seq<Event>)
    requires b.state.HalfOpen? && b.succs == 0 && n > 0
    requires AllSucceed(cfg, b, n, events) && UnderWay(cfg, b, n, events) == 0
    ensures StepAll(cfg, b, events).state.Closed? <==> BeforeFirstSuccess(n, events) >= cfg.successThreshold
    ensures !StepAll(cfg, b, events).state.Closed? ==> forall t :: !Allows(StepAll(cfg, b, events), t)
  {
    RecoverySoFar(cfg, b, n, events);
    AtLeastAtStart(n, events);
  }

  lemma {:induction false} AtLeastAtStart(n: int, events: seq<Event>)
    ensures BeforeFirstSuccess(n, events) >= n
  {
    if events != [] {
      AtLeastAtStart(n, events[..|events| - 1]);
    }
  }

  /**
    Probes made one by one never close a breaker that wants two successes: after the first, requests are refused for
    ever.
   */
  lemma {:induction false} OneByOneNeverCloses(cfg: Config, b: Breaker, success: Event, requests: seq<Event>)
    requires b.state.HalfOpen? && b.succs == 0 && cfg.successThreshold >= 2 && success.op.Success?
    requires forall k :: 0 <= k < |requests| ==> requests[k].op.Allow?
    ensures StepAll(cfg, AfterSuccess(cfg, b), requests).state.HalfOpen?
    ensures forall k :: 0 <= k < |requests| ==>
              !Allows(StepAll(cfg, AfterSuccess(cfg, b), requests[..k]), requests[k].at)
  {
    HalfOpenWaitsForOutcomes(cfg, AfterSuccess(cfg, b), requests);
    assert requests[..|requests|] == requests;
  }

  // ---------- Backoff ----------

  /** Probes that failed since the breaker last closed (or was made). */
  function FailedProbes(cfg: Config, events: seq<Event>): nat {
    if events == [] then 0
    else
      var front, last := events[..|events| - 1], events[|events| - 1];
      var before := After(cfg, front);
      if before.state.HalfOpen? && last.op.Failure? then FailedProbes(cfg, front) + 1
      else if before.state.HalfOpen? && After(cfg, events).state.Closed? then 0
      else FailedProbes(cfg, front)
  }

  /** The cooldown after k failed probes: doubled and capped each time. */
  function Cooldown(cfg: Config, k: nat): int {
    if k == 0 then cfg.openDuration else MinDuration(Cooldown(cfg, k - 1) * 2, cfg.maxOpenDuration)
  }

  /**
    At every point of a trace the cooldown has been doubled and capped once for each probe failed since the last close.
   */
  lemma {:induction false} CooldownCountsProbes(cfg: Config, events: seq<Event>)
    ensures After(cfg, events).openDuration == Cooldown(cfg, FailedProbes(cfg, events))
  {
    if events != [] {
      CooldownCountsProbes(cfg, events[..|events| - 1]);
    }
  }

  /** Exponential backoff with a ceiling, in closed form. */
  function Backoff(cfg: Config, k: nat): int {
    if k == 0 then cfg.openDuration else MinDuration(cfg.openDuration * Pow2(k), cfg.maxOpenDuration)
  }

  /** The ceiling is not negative, or already the first doubled cooldown is below it. */
  predicate CeilingSound(cfg: Config) {
    cfg.maxOpenDuration >= 0 || cfg.openDuration * 2 <= cfg.maxOpenDuration
  }

  lemma NextPower(d: int, k: nat)
    ensures d * Pow2(k + 1) == d * Pow2(k) * 2
    ensures d < 0 ==> d * Pow2(k) <= d
  {
    assert Pow2(k) >= 1;
    if d < 0 {
      assert d * Pow2(k) == d + d * (Pow2(k) - 1);
      assert d * (Pow2(k) - 1) <= 0;
    }
  }

  lemma {:induction false} CooldownFollowsBackoff(cfg: Config, k: nat)
    requires CeilingSound(cfg)
    ensures Cooldown(cfg, k) == Backoff(cfg, k)
  {
    assert Pow2(0) == 1 && Pow2(1) == 2;
    if k > 1 {
      CooldownFollowsBackoff(cfg, k - 1);
      NextPower(cfg.openDuration, k - 1);
      NextPower(cfg.openDuration * 2, k - 2);
      NextPower(cfg.openDuration, k - 2);
    }
  }

  /**
    Doubling and capping step by step is the closed form for every number of failed probes exactly when the ceiling is
    sound.
   */
  lemma BackoffExactly(cfg: Config)
    ensures (forall k: nat :: Cooldown(cfg, k) == Backoff(cfg, k)) <==> CeilingSound(cfg)
  {
    if CeilingSound(cfg) {
      forall k: nat ensures Cooldown(cfg, k) == Backoff(cfg, k) {
        CooldownFollowsBackoff(cfg, k);
      }
    } else {
      assert Pow2(1) == 2 && Pow2(2) == 4;
      assert Cooldown(cfg, 1) == cfg.maxOpenDuration;
      assert Cooldown(cfg, 2) != Backoff(cfg, 2);
    }
  }

  /** At every point of a trace the cooldown is the backoff for the probes failed since the last close. */
  lemma CooldownIsBackoff(cfg: Config, events: seq<Event>)
    requires CeilingSound(cfg)
    ensures After(cfg, events).openDuration == Backoff(cfg, FailedProbes(cfg, events))
  {
    CooldownCountsProbes(cfg, events);
    CooldownFollowsBackoff(cfg, FailedProbes(cfg, events));
  }

  /**
    The cooldown is min(OpenDuration * 2^k, MaxOpenDuration) for every k exactly when the first cooldown respects the
    maximum.
   */
  lemma CappedExactly(cfg: Config)
    ensures (forall k: nat :: Backoff(cfg, k) == MinDuration(cfg.openDuration * Pow2(k), cfg.maxOpenDuration))
              <==> cfg.openDuration <= cfg.maxOpenDuration
  {
    assert cfg.openDuration * Pow2(0) == cfg.openDuration;
    if forall k: nat :: Backoff(cfg, k) == MinDuration(cfg.openDuration * Pow2(k), cfg.maxOpenDuration) {
      assert Backoff(cfg, 0) == MinDuration(cfg.openDuration * Pow2(0), cfg.maxOpenDuration);
    }
  }
}
