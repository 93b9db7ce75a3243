/** What holds of the circuit breaker over whole runs of timed calls. */
module BreakerRuns {
  import opened Bits
  import opened CircuitBreaker

  function Last(calls: seq<Call>, start: int): int
  {
    if calls == [] then start else calls[|calls| - 1].now
  }

  /** The clock never goes back. */
  ghost predicate Timely(calls: seq<Call>, start: int)
  {
    forall i :: 0 <= i < |calls| ==>
      start <= calls[i].now && (i > 0 ==> calls[i - 1].now <= calls[i].now)
  }

  lemma TimelyInit(calls: seq<Call>, start: int)
    requires calls != [] && Timely(calls, start)
    ensures
      var init := calls[..|calls| - 1];
      Timely(init, start) && start <= Last(init, start) <= calls[|calls| - 1].now
  {
    var init := calls[..|calls| - 1];
    forall i | 0 <= i < |init|
      ensures start <= init[i].now && (i > 0 ==> init[i - 1].now <= init[i].now)
    {
      assert init[i] == calls[i];
      if i > 0 {
        assert init[i - 1] == calls[i - 1];
      }
    }
  }

  // ---------- how many requests get through while the breaker is not closed ----------

  /** Allow calls answered with true. */
  function Admitted(c: Config, s: Snapshot, calls: seq<Call>): nat
    decreases |calls|
  {
    if calls == [] then 0
    else
      var init, call := calls[..|calls| - 1], calls[|calls| - 1];
      Admitted(c, s, init) + (if call.op == Allow && Admits(c, Run(c, s, init), call.now) then 1 else 0)
  }

  ghost predicate NeverCloses(c: Config, s: Snapshot, calls: seq<Call>)
  {
    forall i :: 0 <= i <= |calls| ==> Before(c, s, calls, i).state != Closed
  }

  lemma NeverClosesInit(c: Config, s: Snapshot, calls: seq<Call>)
    requires calls != [] && NeverCloses(c, s, calls)
    ensures NeverCloses(c, s, calls[..|calls| - 1])
    ensures Run(c, s, calls).state != Closed && Run(c, s, calls[..|calls| - 1]).state != Closed
  {
    var init := calls[..|calls| - 1];
    forall i | 0 <= i <= |init|
      ensures Before(c, s, init, i).state != Closed
    {
      assert init[..i] == calls[..i];
      assert Before(c, s, calls, i).state != Closed;
    }
    assert calls[..|calls|] == calls && calls[..|init|] == init;
    assert Before(c, s, calls, |calls|).state != Closed && Before(c, s, calls, |init|).state != Closed;
  }

  /** Whole open periods between the trip at t0 and t. */
  function Periods(c: Config, t0: int, t: int): int
    requires c.OpenDuration() > 0
  {
    (t - t0) / c.OpenDuration()
  }

  lemma PeriodsGrow(c: Config, t0: int, t: int, u: int)
    requires c.OpenDuration() > 0 && t0 <= t <= u
    ensures 0 <= Periods(c, t0, t) <= Periods(c, t0, u)
    ensures u - t >= c.OpenDuration() ==> Periods(c, t0, t) + 1 <= Periods(c, t0, u)
  {
    var d := c.OpenDuration();
    var p, q := Periods(c, t0, t), Periods(c, t0, u);
    var r, r' := (t - t0) % d, (u - t0) % d;
    assert t - t0 == p * d + r && u - t0 == q * d + r';
    QuotientsOrdered(p, q, d, r, r');
  }

  lemma QuotientsOrdered(p: int, q: int, d: int, r: int, r': int)
    requires 0 <= r < d && 0 <= r' < d && 0 <= p * d + r <= q * d + r'
    ensures 0 <= p <= q
    ensures (q * d + r') - (p * d + r) >= d ==> p + 1 <= q
  {
    if p < 0 {
      MulMonotone(p + 1, 0, d);
      MulSucc(p, d);
    }
    if q < p {
      MulMonotone(q + 1, p, d);
      MulSucc(q, d);
    }
  }

  lemma TimesGrows(h: int, p: int, q: int)
    requires 0 <= h && p <= q
    ensures h * p <= h * q
  {
  }

  /** Requests admitted so far, plus the probes still free, against the periods elapsed. */
  ghost predicate Budget(c: Config, s: Snapshot, admitted: nat, t0: int, now: int)
    requires c.OpenDuration() > 0
  {
    var h := c.halfOpenRequests;
    && (s.state == Open ==> t0 <= s.openedAt <= now && admitted <= h * Periods(c, t0, s.openedAt))
    && (s.state == HalfOpen ==>
          s.halfOpenTotal <= h && admitted + (h - s.halfOpenTotal) <= h * Periods(c, t0, now))
  }

  lemma BudgetStep(c: Config, s: Snapshot, call: Call, admitted: nat, t0: int, now: int)
    requires c.OpenDuration() > 0 && c.halfOpenRequests >= 0
    requires t0 <= now <= call.now && Budget(c, s, admitted, t0, now)
    requires s.state != Closed && Step(c, s, call).state != Closed
    ensures Budget(c, Step(c, s, call),
                   admitted + (if call.op == Allow && Admits(c, s, call.now) then 1 else 0), t0, call.now)
  {
    var h := c.halfOpenRequests;
    PeriodsGrow(c, t0, now, call.now);
    TimesGrows(h, Periods(c, t0, now), Periods(c, t0, call.now));
    if s.state == Open {
      PeriodsGrow(c, t0, s.openedAt, call.now);
      TimesGrows(h, Periods(c, t0, s.openedAt), Periods(c, t0, call.now));
      if call.now - s.openedAt >= c.OpenDuration() {
        OnePeriodMore(h, Periods(c, t0, s.openedAt), Periods(c, t0, call.now));
      }
    }
  }

  lemma OnePeriodMore(h: int, p: int, q: int)
    requires 0 <= h && p + 1 <= q
    ensures h * p + h <= h * q
  {
    TimesGrows(h, p + 1, q);
    assert h * (p + 1) == h * p + h;
  }

  lemma {:induction false} BudgetHolds(c: Config, s: Snapshot, calls: seq<Call>, t0: int)
    requires s.state == Open && s.openedAt == t0 && Timely(calls, t0) && NeverCloses(c, s, calls)
    requires c.OpenDuration() > 0 && c.halfOpenRequests >= 0
    ensures Budget(c, Run(c, s, calls), Admitted(c, s, calls), t0, Last(calls, t0))
    decreases |calls|
  {
    if calls == [] {
      PeriodsGrow(c, t0, t0, t0);
      TimesGrows(c.halfOpenRequests, 0, Periods(c, t0, t0));
    } else {
      var init := calls[..|calls| - 1];
      TimelyInit(calls, t0);
      NeverClosesInit(c, s, calls);
      BudgetHolds(c, s, init, t0);
      BudgetStep(c, Run(c, s, init), calls[|calls| - 1], Admitted(c, s, init), t0, Last(init, t0));
    }
  }

  /**
   From a trip at t0 until the breaker next closes, at most halfOpenRequests requests are
   admitted per elapsed open period, whatever is asked, recorded or forced open in between.
   */
  lemma {:induction false} AdmissionBound(c: Config, s: Snapshot, calls: seq<Call>, t0: int)
    requires s.state == Open && s.openedAt == t0 && Timely(calls, t0) && NeverCloses(c, s, calls)
    requires c.OpenDuration() > 0 && c.halfOpenRequests >= 0
    ensures Admitted(c, s, calls) <= c.halfOpenRequests * Periods(c, t0, Last(calls, t0))
  {
    BudgetHolds(c, s, calls, t0);
    var now, r := Last(calls, t0), Run(c, s, calls);
    assert calls[..|calls|] == calls;
    assert Before(c, s, calls, |calls|).state != Closed;
    if r.state == Open {
      PeriodsGrow(c, t0, r.openedAt, now);
      TimesGrows(c.halfOpenRequests, Periods(c, t0, r.openedAt), Periods(c, t0, now));
    }
  }

  /** Every Allow call is answered: admitted or counted as rejected. */
  lemma {:induction false} AskedIsAdmittedOrRejected(c: Config, s: Snapshot, calls: seq<Call>)
    ensures Run(c, s, calls).rejectedRequests + Admitted(c, s, calls) == s.rejectedRequests + Count(calls, {Allow})
    decreases |calls|
  {
    if calls != [] {
      AskedIsAdmittedOrRejected(c, s, calls[..|calls| - 1]);
    }
  }

  function Count(calls: seq<Call>, ops: set<Op>): nat
    decreases |calls|
  {
    if calls == [] then 0
    else Count(calls[..|calls| - 1], ops) + (if calls[|calls| - 1].op in ops then 1 else 0)
  }

  lemma CountNext(calls: seq<Call>, from: nat, i: nat, ops: set<Op>)
    requires from <= i < |calls|
    ensures Count(calls[from..i + 1], ops) == Count(calls[from..i], ops) + if calls[i].op in ops then 1 else 0
  {
    var longer := calls[from..i + 1];
    assert longer[..|longer| - 1] == calls[from..i];
  }

  // ---------- what a close is preceded by ----------

  ghost predicate HalfOpenSince(c: Config, s: Snapshot, calls: seq<Call>, entry: nat, i: nat)
  {
    && entry < i <= |calls|
    && Before(c, s, calls, entry).state == Open
    && (forall k :: entry < k <= i ==> Before(c, s, calls, k).state == HalfOpen)
  }

  /** Requests admitted by the calls from entry to i, the entering call included. */
  function AdmittedIn(c: Config, s: Snapshot, calls: seq<Call>, entry: nat, i: nat): int
    requires entry <= i <= |calls|
  {
    Admitted(c, s, calls[..i]) - Admitted(c, s, calls[..entry])
  }

  lemma AdmittedNext(c: Config, s: Snapshot, calls: seq<Call>, entry: nat, i: nat)
    requires entry <= i < |calls|
    ensures AdmittedIn(c, s, calls, entry, i + 1) ==
            AdmittedIn(c, s, calls, entry, i)
            + if calls[i].op == Allow && Admits(c, Before(c, s, calls, i), calls[i].now) then 1 else 0
  {
    hide Admits;
    assert calls[..i + 1][..i] == calls[..i];
  }

  lemma HalfOpenStays(c: Config, s: Snapshot, call: Call)
    requires s.state == HalfOpen && Step(c, s, call).state == HalfOpen
    ensures call.op in {GetState, Allow, Success}
    ensures Step(c, s, call).halfOpenTotal ==
            s.halfOpenTotal + if call.op == Allow && Admits(c, s, call.now) then 1 else 0
    ensures Step(c, s, call).halfOpenTotal > s.halfOpenTotal ==> s.halfOpenTotal < c.halfOpenRequests
    ensures Step(c, s, call).halfOpenSuccesses == s.halfOpenSuccesses + if call.op == Success then 1 else 0
    ensures call.op == Success ==> Step(c, s, call).halfOpenSuccesses < c.halfOpenRequests
    ensures Step(c, s, call).halfOpenFailures == s.halfOpenFailures
  {
  }

  lemma HalfOpenBegins(c: Config, s: Snapshot, call: Call)
    requires s.state != HalfOpen && Step(c, s, call).state == HalfOpen
    ensures s.state == Open && Step(c, s, call).halfOpenSuccesses == Step(c, s, call).halfOpenFailures == 0
    ensures Step(c, s, call).halfOpenTotal == if call.op == Allow && Admits(c, s, call.now) then 1 else 0
    ensures Step(c, s, call).halfOpenTotal == 1 ==> c.halfOpenRequests >= 1
  {
  }

  /**
   In half-open state, the counters describe the calls since the breaker became half-open; no
   more requests were admitted than configured.
   */
  lemma {:induction false} HalfOpenHistory(c: Config, s: Snapshot, calls: seq<Call>, i: nat) returns (entry: nat)
    requires i <= |calls| && s.state != HalfOpen && Before(c, s, calls, i).state == HalfOpen
    ensures HalfOpenSince(c, s, calls, entry, i)
    ensures Before(c, s, calls, i).halfOpenSuccesses == Count(calls[entry + 1..i], {Success})
    ensures Count(calls[entry + 1..i], {Failure}) == 0
    ensures Before(c, s, calls, i).halfOpenSuccesses > 0 ==>
              Before(c, s, calls, i).halfOpenSuccesses < c.halfOpenRequests
    ensures Before(c, s, calls, i).halfOpenTotal == AdmittedIn(c, s, calls, entry, i)
    ensures Before(c, s, calls, i).halfOpenFailures == 0
    ensures AdmittedIn(c, s, calls, entry, i) > 0 ==> AdmittedIn(c, s, calls, entry, i) <= c.halfOpenRequests
  {
    hide Step, Admits, Before, AdmittedIn, Count;
    RunOfNone(c, s, calls);
    BeforeNext(c, s, calls, i - 1);
    var was, call := Before(c, s, calls, i - 1), calls[i - 1];
    if was.state == HalfOpen {
      entry := HalfOpenHistory(c, s, calls, i - 1);
      HalfOpenStays(c, was, call);
      CountNext(calls, entry + 1, i - 1, {Success});
      CountNext(calls, entry + 1, i - 1, {Failure});
      AdmittedNext(c, s, calls, entry, i - 1);
    } else {
      HalfOpenBegins(c, was, call);
      entry := i - 1;
      CountNone(calls, i);
      AdmittedNext(c, s, calls, entry, i - 1);
      NoneAdmitted(c, s, calls, entry);
    }
  }

  lemma CountNone(calls: seq<Call>, i: nat)
    requires i <= |calls|
    ensures Count(calls[i..i], {Success}) == Count(calls[i..i], {Failure}) == 0
  {
  }

  lemma NoneAdmitted(c: Config, s: Snapshot, calls: seq<Call>, i: nat)
    requires i <= |calls|
    ensures AdmittedIn(c, s, calls, i, i) == 0
  {
  }

  /**
   Every close that is not forced ends a half-open phase with halfOpenRequests recorded
   successes (one, if the setting is not positive) and no recorded failure since it began. As
   many requests were admitted exactly if no more successes were recorded than requests were
   admitted, which a caller ensures by reporting only those requests' outcomes.
   */
  lemma CloseNeedsSuccesses(c: Config, s: Snapshot, calls: seq<Call>, i: nat) returns (entry: nat)
    requires s.state == Closed && i < |calls|
    requires Before(c, s, calls, i).state != Closed && Before(c, s, calls, i + 1).state == Closed
    requires calls[i].op != ForceClosed
    ensures calls[i].op == Success
    ensures HalfOpenSince(c, s, calls, entry, i)
    ensures Count(calls[entry + 1..i + 1], {Success}) == if c.halfOpenRequests > 1 then c.halfOpenRequests else 1
    ensures Count(calls[entry + 1..i + 1], {Failure}) == 0
    ensures c.halfOpenRequests >= 1 ==>
      (AdmittedIn(c, s, calls, entry, i) == c.halfOpenRequests <==>
       Count(calls[entry + 1..i + 1], {Success}) <= AdmittedIn(c, s, calls, entry, i))
  {
    hide AdmittedIn;
    BeforeNext(c, s, calls, i);
    entry := HalfOpenHistory(c, s, calls, i);
    CountNext(calls, entry + 1, i, {Success});
    CountNext(calls, entry + 1, i, {Failure});
  }

  /** Conversely the success that reaches the number does close, and a failure never does. */
  lemma EnoughSuccessesClose(c: Config, s: Snapshot, calls: seq<Call>, i: nat) returns (entry: nat)
    requires s.state != HalfOpen && i < |calls| && Before(c, s, calls, i).state == HalfOpen
    ensures HalfOpenSince(c, s, calls, entry, i)
    ensures
      var after := Before(c, s, calls, i + 1).state;
      && (calls[i].op == Success ==>
            (after == Closed <==> Count(calls[entry + 1..i + 1], {Success}) >= c.halfOpenRequests))
      && (calls[i].op in {Failure, ForceOpen} ==> after == Open)
      && (calls[i].op in {GetState, Allow} ==> after == HalfOpen)
  {
    BeforeNext(c, s, calls, i);
    entry := HalfOpenHistory(c, s, calls, i);
    CountNext(calls, entry + 1, i, {Success});
  }

  // ---------- what is admitted ----------

  /** An open breaker's clock runs from the call that opened it. */
  lemma {:induction false} OpenedAtTrip(c: Config, s: Snapshot, calls: seq<Call>, i: nat) returns (trip: nat)
    requires i <= |calls| && s.state != Open && Before(c, s, calls, i).state == Open
    ensures trip < i && Before(c, s, calls, trip).state != Open
    ensures forall k :: trip < k <= i ==> Before(c, s, calls, k).state == Open
    ensures Before(c, s, calls, i).openedAt == calls[trip].now
  {
    hide Step, Before;
    RunOfNone(c, s, calls);
    BeforeNext(c, s, calls, i - 1);
    var was, call := Before(c, s, calls, i - 1), calls[i - 1];
    OpenStep(c, was, call);
    if was.state == Open {
      trip := OpenedAtTrip(c, s, calls, i - 1);
    } else {
      trip := i - 1;
    }
  }

  lemma OpenStep(c: Config, s: Snapshot, call: Call)
    requires Step(c, s, call).state == Open
    ensures Step(c, s, call).openedAt == if s.state == Open then s.openedAt else call.now
  {
  }

  /**
   Which requests are admitted: all in closed state; in open state the first one after the open
   time, if probes are configured at all; in half-open state those up to the configured number.
   */
  lemma AdmittedExactly(c: Config, s: Snapshot, calls: seq<Call>, i: nat) returns (entry: nat)
    requires i < |calls| && s.state != HalfOpen
    ensures
      var was, admitted := Before(c, s, calls, i), Admits(c, Before(c, s, calls, i), calls[i].now);
      match was.state
      case Closed => admitted
      case Open =>
        admitted <==> calls[i].now - was.openedAt >= c.openDurationMs * 1_000_000 && c.halfOpenRequests >= 1
      case HalfOpen =>
        && HalfOpenSince(c, s, calls, entry, i)
        && (admitted <==> AdmittedIn(c, s, calls, entry, i) < c.halfOpenRequests)
  {
    hide AdmittedIn;
    entry := 0;
    if Before(c, s, calls, i).state == HalfOpen {
      entry := HalfOpenHistory(c, s, calls, i);
    }
  }

  /** Recovery: after the open time the configured number of probes get through, and as many successes close. */
  lemma Recovery(c: Config, s: Snapshot)
    requires s.state == Open && c.halfOpenRequests >= 1
    ensures
      var t, n := s.openedAt + c.openDurationMs * 1_000_000, c.halfOpenRequests;
      var probes, wins := Repeat(Call(Allow, t), n), Repeat(Call(Success, t), n);
      && Admitted(c, s, probes) == n && Run(c, s, probes).state == HalfOpen
      && Run(c, s, probes + wins).state == Closed
  {
    var t, n := s.openedAt + c.OpenDuration(), c.halfOpenRequests;
    ProbesPass(c, s, t, n);
    var h := Run(c, s, Repeat(Call(Allow, t), n));
    ProbesSucceed(c, h, t, n - 1);
    RepeatInit(Call(Success, t), n);
    RunConcat(c, s, Repeat(Call(Allow, t), n), Repeat(Call(Success, t), n));
  }

  lemma {:induction false} ProbesPass(c: Config, s: Snapshot, t: int, n: nat)
    requires s.state == Open && 1 <= n <= c.halfOpenRequests && t - s.openedAt >= c.OpenDuration()
    ensures
      var probes := Repeat(Call(Allow, t), n);
      && Admitted(c, s, probes) == n
      && Run(c, s, probes).state == HalfOpen && Run(c, s, probes).halfOpenTotal == n
      && Run(c, s, probes).halfOpenSuccesses == 0
  {
    RepeatInit(Call(Allow, t), n);
    if n == 1 {
      assert Repeat(Call(Allow, t), 0) == [];
    } else {
      ProbesPass(c, s, t, n - 1);
    }
  }

  /** How many calls changed the state. */
  function Changes(c: Config, s: Snapshot, calls: seq<Call>): nat
    decreases |calls|
  {
    if calls == [] then 0
    else
      var init := calls[..|calls| - 1];
      Changes(c, s, init) + (if Run(c, s, init).state != Run(c, s, calls).state then 1 else 0)
  }

  lemma {:induction false} ChangesAreCounted(c: Config, s: Snapshot, calls: seq<Call>)
    ensures Run(c, s, calls).stateChanges == s.stateChanges + Changes(c, s, calls)
    decreases |calls|
  {
    if calls != [] {
      ChangesAreCounted(c, s, calls[..|calls| - 1]);
    }
  }

  // ---------- what a trip is preceded by ----------

  /** The current window: the number of the first call in it, and when it began. */
  datatype Window = Window(first: nat, began: int)

  predicate IsOutcome(call: Call)
  {
    call.op in {Success, Failure}
  }

  /** The breaker closes with this call, or is forced closed once more. */
  predicate Closes(c: Config, s: Snapshot, calls: seq<Call>, i: nat)
    requires i < |calls|
  {
    calls[i].op == ForceClosed ||
    (Before(c, s, calls, i).state != Closed && Before(c, s, calls, i + 1).state == Closed)
  }

  /**
   The window before call i, by the states and the times of the calls alone: it begins anew
   after every close, and with the first outcome a whole window duration after it began.
   */
  function WindowAt(c: Config, s: Snapshot, calls: seq<Call>, i: nat): Window
    requires i <= |calls|
  {
    if i == 0 then Window(0, s.windowStart)
    else
      var w, call := WindowAt(c, s, calls, i - 1), calls[i - 1];
      if Closes(c, s, calls, i - 1) then Window(i, call.now)
      else if Before(c, s, calls, i - 1).state == Closed && IsOutcome(call) && call.now - w.began >= c.Window() then
        Window(i - 1, call.now)
      else w
  }

  /** The counters describe exactly the outcomes of the window, all seen in closed state. */
  ghost predicate Counted(c: Config, s: Snapshot, calls: seq<Call>, w: Window, i: nat)
  {
    && w.first <= i <= |calls|
    && (forall k :: w.first <= k <= i ==> Before(c, s, calls, k).state == Closed)
    && Before(c, s, calls, i).windowStart == w.began
    && Before(c, s, calls, i).totalRequests == Count(calls[w.first..i], {Success, Failure})
    && Before(c, s, calls, i).failedRequests == Count(calls[w.first..i], {Failure})
  }

  lemma WindowStep(c: Config, s: Snapshot, call: Call)
    requires s.state == Closed && Step(c, s, call).state == Closed
    ensures
      var r := Step(c, s, call);
      var f := if call.op == Failure then 1 else 0;
      if call.op == ForceClosed then
        r.totalRequests == r.failedRequests == 0 && r.windowStart == call.now
      else if call.op !in {Success, Failure} then r == s
      else if call.now - s.windowStart >= c.Window() then
        r.totalRequests == 1 && r.failedRequests == f && r.windowStart == call.now
      else
        r.totalRequests == s.totalRequests + 1 && r.failedRequests == s.failedRequests + f
        && r.windowStart == s.windowStart
  {
  }

  lemma WindowReopens(c: Config, s: Snapshot, call: Call)
    requires s.state != Closed && Step(c, s, call).state == Closed
    ensures
      var r := Step(c, s, call);
      r.totalRequests == r.failedRequests == 0 && r.windowStart == call.now
  {
  }

  /** A window that starts with the last of the first i calls, or after it, holds one outcome or none. */
  lemma WindowOfLast(calls: seq<Call>, i: nat)
    requires 0 < i <= |calls|
    ensures Count(calls[i..i], {Success, Failure}) == 0 && Count(calls[i..i], {Failure}) == 0
    ensures Count(calls[i - 1..i], {Success, Failure}) == if calls[i - 1].op in {Success, Failure} then 1 else 0
    ensures Count(calls[i - 1..i], {Failure}) == if calls[i - 1].op == Failure then 1 else 0
  {
    assert calls[i..i] == [] && calls[i - 1..i - 1] == [];
    CountNext(calls, i - 1, i - 1, {Success, Failure});
    CountNext(calls, i - 1, i - 1, {Failure});
  }

  /** In closed state the window's counters count the outcomes since its first call. */
  lemma {:induction false} WindowHistory(c: Config, s: Snapshot, calls: seq<Call>, i: nat)
    requires i <= |calls| && s.state == Closed && s.totalRequests == s.failedRequests == 0
    requires Before(c, s, calls, i).state == Closed
    ensures Counted(c, s, calls, WindowAt(c, s, calls, i), i)
  {
    hide Step, Run, Count, Before;
    if i == 0 {
      RunOfNone(c, s, calls);
    } else {
      BeforeNext(c, s, calls, i - 1);
      WindowOfLast(calls, i);
      var was, call := Before(c, s, calls, i - 1), calls[i - 1];
      if was.state != Closed {
        WindowReopens(c, was, call);
      } else {
        WindowStep(c, was, call);
        WindowHistory(c, s, calls, i - 1);
        var w := WindowAt(c, s, calls, i - 1);
        CountNext(calls, w.first, i - 1, {Success, Failure});
        CountNext(calls, w.first, i - 1, {Failure});
      }
    }
  }

  /** With a clock that never goes back, a window's calls are not before it began. */
  lemma {:induction false} WindowIsRecent(c: Config, s: Snapshot, calls: seq<Call>, start: int, i: nat)
    requires i <= |calls| && Timely(calls, start) && s.windowStart <= start
    ensures
      var w := WindowAt(c, s, calls, i);
      && w.first <= i
      && w.began <= (if i == 0 then start else calls[i - 1].now)
      && forall k :: w.first <= k < i ==> w.began <= calls[k].now
  {
    hide Closes, Before;
    if i > 0 {
      WindowIsRecent(c, s, calls, start, i - 1);
    }
  }

  lemma RunOfNone(c: Config, s: Snapshot, calls: seq<Call>)
    ensures Before(c, s, calls, 0) == s
    ensures Count(calls[0..0], {Success, Failure}) == 0 && Count(calls[0..0], {Failure}) == 0
  {
  }

  /** Enough outcomes, and the configured share of them failures. */
  predicate OverShare(c: Config, failures: nat, outcomes: nat)
  {
    outcomes > 0 && outcomes >= c.minRequests && failures as real / outcomes as real >= c.failureThreshold
  }

  /**
   When a closed breaker opens: if forced, or on a recorded failure that brings the outcomes of
   the current window to at least minRequests with at least the configured share of failures.
   */
  lemma TripsExactly(c: Config, s: Snapshot, calls: seq<Call>, i: nat)
    requires i < |calls| && s.state == Closed && s.totalRequests == s.failedRequests == 0
    requires Before(c, s, calls, i).state == Closed
    ensures WindowAt(c, s, calls, i + 1).first <= i + 1
    ensures
      var window := calls[WindowAt(c, s, calls, i + 1).first..i + 1];
      Before(c, s, calls, i + 1).state == Open <==>
      calls[i].op == ForceOpen ||
      (calls[i].op == Failure && OverShare(c, Count(window, {Failure}), Count(window, {Success, Failure})))
  {
    hide Run, Before, Count;
    BeforeNext(c, s, calls, i);
    var was := Before(c, s, calls, i);
    WindowHistory(c, s, calls, i);
    WindowOfLast(calls, i + 1);
    var w := WindowAt(c, s, calls, i);
    CountNext(calls, w.first, i, {Success, Failure});
    CountNext(calls, w.first, i, {Failure});
  }

  /**
   When the window is the sliding one: let call i be an outcome and a be the first call less than
   a window duration before it. The window is within that, and counts the same outcomes exactly
   if none of them came before the window's first call.
   */
  lemma WindowSlides(c: Config, s: Snapshot, calls: seq<Call>, start: int, i: nat, a: nat)
    requires a <= i < |calls| && Timely(calls, start) && s.windowStart <= start
    requires Before(c, s, calls, i).state == Closed && IsOutcome(calls[i])
    requires forall k :: 0 <= k <= i ==> (a <= k <==> calls[i].now - calls[k].now < c.Window())
    ensures
      var first := WindowAt(c, s, calls, i + 1).first;
      && a <= first <= i
      && (Count(calls[a..i + 1], {Success, Failure}) == Count(calls[first..i + 1], {Success, Failure}) <==>
          forall k :: a <= k < first ==> !IsOutcome(calls[k]))
  {
    hide Run, Count, Step, Before;
    WindowIsRecent(c, s, calls, start, i);
    BeforeNext(c, s, calls, i);
    var w := WindowAt(c, s, calls, i + 1);
    if w.first < i {
      assert a <= w.first by {
        assert calls[i].now - calls[w.first].now < c.Window();
      }
    }
    CountSplit(calls, a, w.first, i + 1);
    CountNothing(calls, a, w.first);
  }

  lemma {:induction false} CountSplit(calls: seq<Call>, a: nat, m: nat, i: nat)
    requires a <= m <= i <= |calls|
    ensures Count(calls[a..i], {Success, Failure}) ==
            Count(calls[a..m], {Success, Failure}) + Count(calls[m..i], {Success, Failure})
    decreases i
  {
    if m < i {
      CountSplit(calls, a, m, i - 1);
      CountNext(calls, a, i - 1, {Success, Failure});
      CountNext(calls, m, i - 1, {Success, Failure});
    } else {
      assert calls[m..i] == [];
    }
  }

  lemma {:induction false} CountNothing(calls: seq<Call>, a: nat, m: nat)
    requires a <= m <= |calls|
    ensures Count(calls[a..m], {Success, Failure}) == 0 <==> forall k :: a <= k < m ==> !IsOutcome(calls[k])
    decreases m
  {
    if a < m {
      CountNothing(calls, a, m - 1);
      CountNext(calls, a, m - 1, {Success, Failure});
    } else {
      assert calls[a..m] == [];
    }
  }

  lemma WindowStepOver(c: Config, s: Snapshot, call: Call)
    requires s.state == Closed && Step(c, s, call).state == Closed && OverThreshold(c, Step(c, s, call))
    ensures call.op in {Success, GetState, Allow} && (call.op != Success ==> Step(c, s, call) == s)
  {
  }

  /** Where a closed breaker is over the threshold, the last outcome of its window was a success. */
  lemma {:induction false} OverThresholdAfterSuccess(c: Config, s: Snapshot, calls: seq<Call>, i: nat) returns (k: nat)
    requires i <= |calls| && s.state == Closed && s.totalRequests == s.failedRequests == 0
    requires Before(c, s, calls, i).state == Closed && OverThreshold(c, Before(c, s, calls, i))
    ensures WindowAt(c, s, calls, i).first <= k < i
    ensures calls[k].op == Success && forall l :: k < l < i ==> !IsOutcome(calls[l])
  {
    hide Run, Before, Count, Step;
    if i == 0 {
      RunOfNone(c, s, calls);
      assert false;
    } else {
      BeforeNext(c, s, calls, i - 1);
      var was, call := Before(c, s, calls, i - 1), calls[i - 1];
      if was.state != Closed {
        WindowReopens(c, was, call);
        assert false;
      } else if call.op == Success {
        WindowHistory(c, s, calls, i - 1);
        k := i - 1;
      } else {
        WindowStepOver(c, was, call);
        k := OverThresholdAfterSuccess(c, s, calls, i - 1);
      }
    }
  }

  // ---------- how many failures always open the breaker ----------

  ghost predicate AllFailures(calls: seq<Call>)
  {
    forall k :: 0 <= k < |calls| ==> calls[k].op == Failure
  }

  /** None of the calls is a window duration or more after an earlier one. */
  ghost predicate InOneWindow(c: Config, calls: seq<Call>)
  {
    forall i, j :: 0 <= i <= j < |calls| ==> calls[j].now - calls[i].now < c.Window()
  }

  lemma FailureStep(c: Config, s: Snapshot, now: int)
    ensures
      var r := Failed(c, s, now);
      if s.state != Closed then r.state != Closed
      else
        r.state == Closed ==>
          && !OverShare(c, r.failedRequests, r.totalRequests)
          && (if now - s.windowStart >= c.Window() then
                r.totalRequests == r.failedRequests == 1 && r.windowStart == now
              else
                r.totalRequests == s.totalRequests + 1 && r.failedRequests == s.failedRequests + 1
                && r.windowStart == s.windowStart)
  {
  }

  /** With k more failures in the same window the share is reached. */
  predicate OverAfter(c: Config, s: Snapshot, k: nat)
  {
    OverShare(c, s.failedRequests + k, s.totalRequests + k)
  }

  lemma AllFailed(c: Config, n: nat)
    requires n >= 1 && c.failureThreshold <= 1.0
    ensures OverShare(c, n, n) <==> n >= c.minRequests
  {
    assert n as real / n as real == 1.0;
  }

  /** Where the window began if failures have left the breaker closed: before them, or with one of the first k. */
  ghost predicate Spared(c: Config, s: Snapshot, calls: seq<Call>, k: nat, r: Snapshot)
  {
    || (|calls| < k && r.totalRequests == s.totalRequests + |calls|
        && r.failedRequests == s.failedRequests + |calls| && r.windowStart == s.windowStart)
    || exists i :: 0 <= i < |calls| && i < k && r.windowStart == calls[i].now
                   && r.totalRequests == r.failedRequests == |calls| - i < c.minRequests
  }

  lemma {:induction false} FailuresSpared(c: Config, s: Snapshot, calls: seq<Call>, k: nat)
    requires c.failureThreshold <= 1.0 && s.state == Closed
    requires k >= 1 && OverAfter(c, s, k)
    requires AllFailures(calls) && InOneWindow(c, calls)
    ensures Run(c, s, calls).state == Closed ==> Spared(c, s, calls, k, Run(c, s, calls))
    decreases |calls|
  {
    hide Failed, OverShare;
    if calls != [] {
      var n := |calls| - 1;
      var init := calls[..n];
      assert forall i :: 0 <= i < n ==> init[i] == calls[i];
      FailuresSpared(c, s, init, k);
      var was, r := Run(c, s, init), Run(c, s, calls);
      if r.state == Closed {
        FailureStep(c, was, calls[n].now);
        SparedNext(c, s, calls, k, was, r);
      }
    }
  }

  lemma SparedNext(c: Config, s: Snapshot, calls: seq<Call>, k: nat, was: Snapshot, r: Snapshot)
    requires calls != [] && c.failureThreshold <= 1.0 && InOneWindow(c, calls)
    requires Spared(c, s, calls[..|calls| - 1], k, was) && !OverShare(c, r.failedRequests, r.totalRequests)
    requires
      var now := calls[|calls| - 1].now;
      if now - was.windowStart >= c.Window() then r.totalRequests == r.failedRequests == 1 && r.windowStart == now
      else
        r.totalRequests == was.totalRequests + 1 && r.failedRequests == was.failedRequests + 1
        && r.windowStart == was.windowStart
    requires OverAfter(c, s, k)
    ensures Spared(c, s, calls, k, r)
  {
    hide OverShare;
    var n := |calls| - 1;
    if i :| 0 <= i < n && i < k && was.windowStart == calls[..n][i].now
            && was.totalRequests == was.failedRequests == n - i < c.minRequests {
      assert calls[..n][i] == calls[i];
      assert calls[n].now - calls[i].now < c.Window();
      AllFailed(c, n + 1 - i);
    } else if calls[n].now - was.windowStart >= c.Window() {
      AllFailed(c, 1);
      assert r.windowStart == calls[n].now && n < k;
    }
  }

  /**
   If k more failures would make the share, however the outcomes before were spread, any
   k + minRequests - 1 failures in a row within one window duration open a closed breaker: a new
   window may begin with the k-th at the latest.
   */
  lemma FailuresOpen(c: Config, s: Snapshot, calls: seq<Call>, k: nat)
    requires c.failureThreshold <= 1.0 && s.state == Closed
    requires k >= 1 && OverAfter(c, s, k)
    requires AllFailures(calls) && InOneWindow(c, calls) && |calls| >= k && |calls| >= k + c.minRequests - 1
    ensures Run(c, s, calls).state != Closed
  {
    hide Run, OverShare;
    FailuresSpared(c, s, calls, k);
  }

  /** So without a counted success 2 * minRequests - 1 failures are enough. */
  lemma FailuresOpenClean(c: Config, s: Snapshot, calls: seq<Call>)
    requires c.minRequests >= 1 && c.failureThreshold <= 1.0
    requires s.state == Closed && s.totalRequests == s.failedRequests
    requires AllFailures(calls) && InOneWindow(c, calls) && |calls| >= 2 * c.minRequests - 1
    ensures Run(c, s, calls).state != Closed
  {
    AllFailed(c, s.totalRequests + c.minRequests);
    FailuresOpen(c, s, calls, c.minRequests);
  }

  /** With 1000 successes counted the default breaker stays closed over 19 failures at one instant. */
  lemma SuccessesDelay(now: int)
    ensures
      var s := Snapshot(Closed, 0, 1000, 0, now, 0, 0, 0, 0, 0);
      Run(DEFAULT_CONFIG, s, Repeat(Call(Failure, now), 19)).state == Closed
  {
    var s := Snapshot(Closed, 0, 1000, 0, now, 0, 0, 0, 0, 0);
    forall i | 0 < i <= 19 ensures !OverAfter(DEFAULT_CONFIG, s, i) {
      BelowHalf(i as real, (1000 + i) as real);
    }
    FailuresBelowShare(DEFAULT_CONFIG, s, now, 19);
  }

  lemma FailureCounts(c: Config, s: Snapshot, now: int)
    requires s.state == Closed && now - s.windowStart < c.Window() && !OverAfter(c, s, 1)
    ensures Failed(c, s, now) == s.(totalRequests := s.totalRequests + 1, failedRequests := s.failedRequests + 1)
  {
  }

  lemma BelowHalf(x: real, y: real)
    requires 0.0 < y && 2.0 * x < y
    ensures x / y < 0.5
  {
    assert x / y * y == x;
    HalfOrMore(x / y, y);
  }

  lemma HalfOrMore(q: real, y: real)
    requires 0.0 < y
    ensures q >= 0.5 ==> q * y >= 0.5 * y
  {
    if q >= 0.5 {
      assert (q - 0.5) * y >= 0.0;
    }
  }

  lemma {:induction false} FailuresBelowShare(c: Config, s: Snapshot, now: int, n: nat)
    requires s.state == Closed && now - s.windowStart < c.Window()
    requires forall i :: 0 < i <= n ==> !OverAfter(c, s, i)
    ensures Run(c, s, Repeat(Call(Failure, now), n)) ==
            s.(totalRequests := s.totalRequests + n, failedRequests := s.failedRequests + n)
  {
    hide OverShare, Failed;
    if n > 0 {
      RepeatInit(Call(Failure, now), n);
      FailuresBelowShare(c, s, now, n - 1);
      var r := s.(totalRequests := s.totalRequests + n - 1, failedRequests := s.failedRequests + n - 1);
      assert r.totalRequests + 1 == s.totalRequests + n && r.failedRequests + 1 == s.failedRequests + n;
      assert !OverAfter(c, s, n);
      FailureCounts(c, r, now);
    }
  }

  // ---------- what the documentation leads one to expect, and the code does not do ----------

  function Repeat(call: Call, n: nat): (calls: seq<Call>)
    ensures |calls| == n && forall k :: 0 <= k < n ==> calls[k] == call
  {
    seq(n, _ => call)
  }

  lemma RepeatInit(call: Call, n: nat)
    requires n > 0
    ensures Repeat(call, n)[..n - 1] == Repeat(call, n - 1)
  {
  }

  lemma FailuresBelowMinimum(c: Config, s: Snapshot, now: int, n: nat)
    requires s.state == Closed && now - s.windowStart < c.Window() && s.totalRequests + n < c.minRequests
    ensures Run(c, s, Repeat(Call(Failure, now), n)) ==
            s.(totalRequests := s.totalRequests + n, failedRequests := s.failedRequests + n)
  {
    FailuresBelowShare(c, s, now, n);
  }

  lemma {:induction false} SuccessesCount(c: Config, s: Snapshot, now: int, n: nat)
    requires s.state == Closed && now - s.windowStart < c.Window()
    ensures Run(c, s, Repeat(Call(Success, now), n)) == s.(totalRequests := s.totalRequests + n)
  {
    if n > 0 {
      RepeatInit(Call(Success, now), n);
      SuccessesCount(c, s, now, n - 1);
    }
  }

  lemma {:induction false} RunConcat(c: Config, s: Snapshot, a: seq<Call>, b: seq<Call>)
    ensures Run(c, s, a + b) == Run(c, Run(c, s, a), b)
    decreases |b|
  {
    if b == [] {
      assert a + b == a;
    } else {
      assert (a + b)[..|a + b| - 1] == a + b[..|b| - 1];
      RunConcat(c, s, a, b[..|b| - 1]);
    }
  }

  lemma RunOne(c: Config, s: Snapshot, call: Call)
    ensures Run(c, s, [call]) == Step(c, s, call)
  {
    assert [call][..0] == [];
    assert Run(c, s, [call][..0]) == s;
  }

  function Fresh(now: int): Snapshot
  {
    Snapshot(Closed, 0, 0, 0, now, 0, 0, 0, 0, 0)
  }

  /** Only a failure is checked against the threshold: 5 failures then 5 successes stay closed at 50%. */
  lemma ThresholdReachedYetClosed()
    ensures
      var calls := Repeat(Call(Failure, 0), 5) + Repeat(Call(Success, 0), 5);
      var s := Run(DEFAULT_CONFIG, Fresh(0), calls);
      Timely(calls, 0) && s.state == Closed && OverThreshold(DEFAULT_CONFIG, s)
  {
    hide Run;
    var failures, successes := Repeat(Call(Failure, 0), 5), Repeat(Call(Success, 0), 5);
    FailuresBelowMinimum(DEFAULT_CONFIG, Fresh(0), 0, 5);
    SuccessesCount(DEFAULT_CONFIG, Run(DEFAULT_CONFIG, Fresh(0), failures), 0, 5);
    RunConcat(DEFAULT_CONFIG, Fresh(0), failures, successes);
  }

  /**
   The window tumbles instead of sliding: with every configuration, 2 * minRequests - 2 failures
   within a nanosecond can leave a new breaker closed. One more never does, by FailuresOpenClean.
   */
  lemma WindowTumbles(c: Config)
    requires c.minRequests >= 1 && c.Window() > 1
    ensures
      var early := Repeat(Call(Failure, c.Window() - 1), c.minRequests - 1);
      var late := Repeat(Call(Failure, c.Window()), c.minRequests - 1);
      && |early + late| == 2 * c.minRequests - 2
      && AllFailures(early + late) && Timely(early + late, 0) && InOneWindow(c, early + late)
      && Run(c, Fresh(0), early + late).state == Closed
  {
    hide Run;
    var t, n := c.Window(), c.minRequests - 1;
    var early, late := Repeat(Call(Failure, t - 1), n), Repeat(Call(Failure, t), n);
    FailuresBelowMinimum(c, Fresh(0), t - 1, n);
    RunConcat(c, Fresh(0), early, late);
    var s := Run(c, Fresh(0), early);
    if n == 0 {
      NoCalls(c, s);
    } else {
      var first, rest := [Call(Failure, t)], Repeat(Call(Failure, t), n - 1);
      RunOne(c, s, Call(Failure, t));
      FailuresBelowMinimum(c, Run(c, s, first), t, n - 1);
      assert late == first + rest;
      RunConcat(c, s, first, rest);
    }
  }

  lemma NoCalls(c: Config, s: Snapshot)
    ensures Run(c, s, []) == s
  {
  }

  /**
   A close need not follow a single admitted probe: outcomes of requests sent before the trip
   are counted. Here the state is only read after the open time, then the successes arrive.
   */
  lemma StaleSuccessesClose(c: Config, s: Snapshot)
    requires s.state == Open && c.halfOpenRequests >= 1
    ensures
      var t := s.openedAt + c.OpenDuration();
      var calls := [Call(GetState, t)] + Repeat(Call(Success, t), c.halfOpenRequests);
      Run(c, s, calls).state == Closed && Admitted(c, s, calls) == 0
  {
    var t, n := s.openedAt + c.OpenDuration(), c.halfOpenRequests;
    var look, wins := [Call(GetState, t)], Repeat(Call(Success, t), n);
    RunOne(c, s, Call(GetState, t));
    ProbesSucceed(c, Run(c, s, look), t, n - 1);
    RepeatInit(Call(Success, t), n);
    RunConcat(c, s, look, wins);
    NoAllowNoAdmission(c, s, look + wins);
  }

  lemma {:induction false} ProbesSucceed(c: Config, h: Snapshot, t: int, n: nat)
    requires h.state == HalfOpen && h.halfOpenSuccesses + n < c.halfOpenRequests
    ensures Run(c, h, Repeat(Call(Success, t), n)) == h.(halfOpenSuccesses := h.halfOpenSuccesses + n)
  {
    if n > 0 {
      RepeatInit(Call(Success, t), n);
      ProbesSucceed(c, h, t, n - 1);
    }
  }

  lemma {:induction false} NoAllowNoAdmission(c: Config, s: Snapshot, calls: seq<Call>)
    requires forall k :: 0 <= k < |calls| ==> calls[k].op != Allow
    ensures Admitted(c, s, calls) == 0
    decreases |calls|
  {
    if calls != [] {
      NoAllowNoAdmission(c, s, calls[..|calls| - 1]);
    }
  }

  /** Once all probes are out, time alone never admits another request. */
  lemma {:induction false} ProbesLostForGood(c: Config, s: Snapshot, calls: seq<Call>)
    requires s.state == HalfOpen && s.halfOpenTotal >= c.halfOpenRequests
    requires forall k :: 0 <= k < |calls| ==> calls[k].op in {GetState, Allow}
    ensures Admitted(c, s, calls) == 0
    ensures Run(c, s, calls).state == HalfOpen && Run(c, s, calls).halfOpenTotal == s.halfOpenTotal
    decreases |calls|
  {
    if calls != [] {
      ProbesLostForGood(c, s, calls[..|calls| - 1]);
    }
  }
}
