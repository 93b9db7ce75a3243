/**
 The per-replica circuit breaker (src/clients/go/pkg/circuitbreaker/circuitbreaker.go). Each
 locked method is one atomic step; it takes the clock reading, in nanoseconds, as `now`.
 */
module CircuitBreaker {
  datatype State = Closed | Open | HalfOpen

  const MILLISECOND: int := 1_000_000

  datatype Config = Config(
    failureThreshold: real,
    minRequests: int,
    windowDurationMs: int,
    openDurationMs: int,
    halfOpenRequests: int)
  {
    function Window(): int { windowDurationMs * MILLISECOND }

    function OpenDuration(): int { openDurationMs * MILLISECOND }
  }

  /** The settings are in milliseconds, the clock in nanoseconds. */
  lemma Durations(c: Config)
    ensures c.Window() == c.windowDurationMs * 1_000_000 && c.OpenDuration() == c.openDurationMs * 1_000_000
    ensures DEFAULT_CONFIG.Window() == 10_000_000_000 && DEFAULT_CONFIG.OpenDuration() == 30_000_000_000
  {
  }

  const DEFAULT_CONFIG: Config := Config(0.5, 10, 10000, 30000, 5)

  datatype Snapshot = Snapshot(
    state: State,
    openedAt: int,
    totalRequests: nat,
    failedRequests: nat,
    windowStart: int,
    halfOpenSuccesses: nat,
    halfOpenFailures: nat,
    halfOpenTotal: nat,
    stateChanges: nat,
    rejectedRequests: nat)

  // ---------- the steps, as functions of the state ----------

  function Moved(s: Snapshot, to: State, now: int): Snapshot
  {
    if s.state == to then s
    else s.(state := to, stateChanges := s.stateChanges + 1,
            openedAt := if to == Open then now else s.openedAt)
  }

  function CountersReset(s: Snapshot, now: int): Snapshot
  {
    s.(totalRequests := 0, failedRequests := 0, windowStart := now)
  }

  /** An open breaker whose time is up turns half-open, with fresh probe counters. */
  function Refreshed(c: Config, s: Snapshot, now: int): Snapshot
  {
    if s.state == Open && now - s.openedAt >= c.OpenDuration() then
      Moved(s, HalfOpen, now).(halfOpenSuccesses := 0, halfOpenFailures := 0, halfOpenTotal := 0)
    else s
  }

  predicate Admits(c: Config, s: Snapshot, now: int)
  {
    var r := Refreshed(c, s, now);
    r.state == Closed || (r.state == HalfOpen && r.halfOpenTotal < c.halfOpenRequests)
  }

  function Asked(c: Config, s: Snapshot, now: int): Snapshot
  {
    var r := Refreshed(c, s, now);
    if r.state == Closed then r
    else if Admits(c, s, now) then r.(halfOpenTotal := r.halfOpenTotal + 1)
    else r.(rejectedRequests := r.rejectedRequests + 1)
  }

  function Recorded(c: Config, s: Snapshot, failure: bool, now: int): Snapshot
  {
    var w := if now - s.windowStart >= c.Window() then CountersReset(s, now) else s;
    w.(totalRequests := w.totalRequests + 1,
       failedRequests := w.failedRequests + (if failure then 1 else 0))
  }

  predicate OverThreshold(c: Config, s: Snapshot)
  {
    s.totalRequests > 0 && s.totalRequests >= c.minRequests &&
    s.failedRequests as real / s.totalRequests as real >= c.failureThreshold
  }

  function Succeeded(c: Config, s: Snapshot, now: int): Snapshot
  {
    match s.state
    case Closed => Recorded(c, s, false, now)
    case HalfOpen =>
      var p := s.(halfOpenSuccesses := s.halfOpenSuccesses + 1);
      if p.halfOpenSuccesses >= c.halfOpenRequests then CountersReset(Moved(p, Closed, now), now) else p
    case Open => s
  }

  function Failed(c: Config, s: Snapshot, now: int): Snapshot
  {
    match s.state
    case Closed =>
      var w := Recorded(c, s, true, now);
      if OverThreshold(c, w) then Moved(w, Open, now) else w
    case HalfOpen => Moved(s.(halfOpenFailures := s.halfOpenFailures + 1), Open, now)
    case Open => s
  }

  // ---------- the object ----------

  class Breaker {
    const config: Config
    var state: State
    var openedAt: int
    var totalRequests: nat
    var failedRequests: nat
    var windowStart: int
    var halfOpenSuccesses: nat
    var halfOpenFailures: nat
    var halfOpenTotal: nat
    var stateChanges: nat
    var rejectedRequests: nat

    function View(): Snapshot
      reads this
    {
      Snapshot(state, openedAt, totalRequests, failedRequests, windowStart,
               halfOpenSuccesses, halfOpenFailures, halfOpenTotal, stateChanges, rejectedRequests)
    }

    constructor (config: Config, now: int)
      ensures this.config == config
      ensures View() == Snapshot(Closed, 0, 0, 0, now, 0, 0, 0, 0, 0)
    {
      this.config := config;
      state := Closed;
      openedAt := 0;
      totalRequests, failedRequests, windowStart := 0, 0, now;
      halfOpenSuccesses, halfOpenFailures, halfOpenTotal := 0, 0, 0;
      stateChanges, rejectedRequests := 0, 0;
    }

    method GetState(now: int) returns (r: State)
      modifies this
      ensures View() == Refreshed(config, old(View()), now)
      ensures r == state
    {
      if state == Open {
        var elapsed := now - openedAt;
        if elapsed >= config.OpenDuration() {
          TransitionTo(HalfOpen, now);
          ResetHalfOpenCounters();
        }
      }
      return state;
    }

    method AllowRequest(now: int) returns (allowed: bool)
      modifies this
      ensures View() == Asked(config, old(View()), now)
      ensures allowed == Admits(config, old(View()), now)
    {
      match state
      case Closed =>
        return true;
      case Open =>
        var elapsed := now - openedAt;
        if elapsed >= config.OpenDuration() {
          TransitionTo(HalfOpen, now);
          ResetHalfOpenCounters();
          allowed := AllowHalfOpenRequest();
          return;
        }
        rejectedRequests := rejectedRequests + 1;
        return false;
      case HalfOpen =>
        allowed := AllowHalfOpenRequest();
    }

    method AllowHalfOpenRequest() returns (allowed: bool)
      modifies this
      ensures allowed == (old(halfOpenTotal) < config.halfOpenRequests)
      ensures View() ==
        if allowed then old(View()).(halfOpenTotal := old(halfOpenTotal) + 1)
        else old(View()).(rejectedRequests := old(rejectedRequests) + 1)
    {
      if halfOpenTotal >= config.halfOpenRequests {
        rejectedRequests := rejectedRequests + 1;
        return false;
      }
      halfOpenTotal := halfOpenTotal + 1;
      return true;
    }

    method RecordSuccess(now: int)
      modifies this
      ensures View() == Succeeded(config, old(View()), now)
    {
      match state
      case Closed =>
        RecordInWindow(false, now);
      case HalfOpen =>
        halfOpenSuccesses := halfOpenSuccesses + 1;
        if halfOpenSuccesses >= config.halfOpenRequests {
          TransitionTo(Closed, now);
          ResetCounters(now);
        }
      case Open =>
    }

    method RecordFailure(now: int)
      modifies this
      ensures View() == Failed(config, old(View()), now)
    {
      match state
      case Closed =>
        RecordInWindow(true, now);
        CheckThreshold(now);
      case HalfOpen =>
        halfOpenFailures := halfOpenFailures + 1;
        TransitionTo(Open, now);
      case Open =>
    }

    method RecordInWindow(failure: bool, now: int)
      modifies this
      ensures View() == Recorded(config, old(View()), failure, now)
    {
      var elapsed := now - windowStart;
      if elapsed >= config.Window() {
        totalRequests := 0;
        failedRequests := 0;
        windowStart := now;
      }
      totalRequests := totalRequests + 1;
      if failure {
        failedRequests := failedRequests + 1;
      }
    }

    /** With no requests the rate is 0/0, which reaches no threshold. */
    method CheckThreshold(now: int)
      modifies this
      ensures View() ==
        if OverThreshold(config, old(View())) then Moved(old(View()), Open, now) else old(View())
    {
      if totalRequests < config.minRequests || totalRequests == 0 {
        return;
      }
      var failureRate := failedRequests as real / totalRequests as real;
      if failureRate >= config.failureThreshold {
        TransitionTo(Open, now);
      }
    }

    method TransitionTo(newState: State, now: int)
      modifies this
      ensures View() == Moved(old(View()), newState, now)
    {
      if state == newState {
        return;
      }
      state := newState;
      stateChanges := stateChanges + 1;
      if newState == Open {
        openedAt := now;
      }
    }

    method ResetCounters(now: int)
      modifies this
      ensures View() == CountersReset(old(View()), now)
    {
      totalRequests := 0;
      failedRequests := 0;
      windowStart := now;
    }

    method ResetHalfOpenCounters()
      modifies this
      ensures View() == old(View()).(halfOpenSuccesses := 0, halfOpenFailures := 0, halfOpenTotal := 0)
    {
      halfOpenSuccesses := 0;
      halfOpenFailures := 0;
      halfOpenTotal := 0;
    }

    method ForceOpen(now: int)
      modifies this
      ensures View() == Moved(old(View()), Open, now)
    {
      TransitionTo(Open, now);
    }

    method ForceClosed(now: int)
      modifies this
      ensures View() == CountersReset(Moved(old(View()), Closed, now), now)
    {
      TransitionTo(Closed, now);
      ResetCounters(now);
    }
  }

  // ---------- runs ----------

  datatype Op = GetState | Allow | Success | Failure | ForceOpen | ForceClosed

  datatype Call = Call(op: Op, now: int)

  function Step(c: Config, s: Snapshot, call: Call): Snapshot
  {
    match call.op
    case GetState => Refreshed(c, s, call.now)
    case Allow => Asked(c, s, call.now)
    case Success => Succeeded(c, s, call.now)
    case Failure => Failed(c, s, call.now)
    case ForceOpen => Moved(s, Open, call.now)
    case ForceClosed => CountersReset(Moved(s, Closed, call.now), call.now)
  }

  function Run(c: Config, s: Snapshot, calls: seq<Call>): Snapshot
    decreases |calls|
  {
    if calls == [] then s
    else Step(c, Run(c, s, calls[..|calls| - 1]), calls[|calls| - 1])
  }

  function Before(c: Config, s: Snapshot, calls: seq<Call>, i: nat): Snapshot
    requires i <= |calls|
  {
    Run(c, s, calls[..i])
  }

  lemma BeforeNext(c: Config, s: Snapshot, calls: seq<Call>, i: nat)
    requires i < |calls|
    ensures Before(c, s, calls, i + 1) == Step(c, Before(c, s, calls, i), calls[i])
  {
    assert calls[..i + 1][..i] == calls[..i];
  }
}
