/**
  The circuit breaker. Its lock makes admission, success and failure three separate atomic steps, so calls overlap
  freely between them.
 */
module CircuitBreakers {
  import opened Types

  datatype State = CLOSED | OPEN | HALF_OPEN

  datatype Breaker = Breaker(state: State, failures: int, lastChange: real)

  datatype Config = Config(threshold: int, recovery: real)

  /** The locked block at the start of a call: an open breaker refuses until its recovery time has passed. */
  function Admit(b: Breaker, cfg: Config, now: real): (bool, Breaker) {
    if b.state != OPEN then (true, b)
    else if now - b.lastChange >= cfg.recovery then (true, b.(state := HALF_OPEN))
    else (false, b)
  }

  function OnSuccess(b: Breaker): Breaker {
    b.(state := CLOSED, failures := 0)
  }

  function OnFailure(b: Breaker, cfg: Config, now: real): Breaker {
    if b.failures + 1 >= cfg.threshold || b.state == HALF_OPEN then Breaker(OPEN, b.failures + 1, now)
    else b.(failures := b.failures + 1)
  }

  function Fresh(now: real): Breaker {
    Breaker(CLOSED, 0, now)
  }

  datatype Outcome<+V> = Value(value: V) | Expected | Unexpected

  datatype Reply<+V> = Returned(value: V) | FellBack(value: V) | Refused | Raised

  class CircuitBreaker<V> {
    const cfg: Config
    var state: State
    var failureCount: int
    var lastStateChange: real

    function View(): Breaker
      reads this
    {
      Breaker(state, failureCount, lastStateChange)
    }

    constructor (cfg: Config, now: real)
      ensures this.cfg == cfg && View() == Fresh(now)
    {
      this.cfg, state, failureCount, lastStateChange := cfg, CLOSED, 0, now;
    }

    method RecordSuccess()
      modifies this
      ensures View() == OnSuccess(old(View()))
    {
      state, failureCount := CLOSED, 0;
    }

    method RecordFailure(now: real)
      modifies this
      ensures View() == OnFailure(old(View()), cfg, now)
    {
      failureCount := failureCount + 1;
      if failureCount >= cfg.threshold || state == HALF_OPEN {
        state, lastStateChange := OPEN, now;
      }
    }

    /** One call on its own, starting at `start` and finishing at `finish`; an unexpected exception is not recorded. */
    method Call(outcome: Outcome<V>, fallback: Option<V>, start: real, finish: real) returns (reply: Reply<V>, invoked: bool)
      modifies this
      ensures invoked <==> Admit(old(View()), cfg, start).0
      ensures var b := Admit(old(View()), cfg, start).1;
        View() == if !invoked || outcome.Unexpected? then b
                  else if outcome.Value? then OnSuccess(b) else OnFailure(b, cfg, finish)
      ensures invoked && outcome.Value? ==> reply == Returned(outcome.value)
      ensures invoked && outcome.Unexpected? ==> reply == Raised
      ensures invoked && outcome.Expected? ==> reply == if fallback.Some? then FellBack(fallback.value) else Raised
      ensures !invoked ==> reply == if fallback.Some? then FellBack(fallback.value) else Refused
    {
      if state == OPEN {
        if start - lastStateChange >= cfg.recovery {
          state := HALF_OPEN;
        } else {
          return if fallback.Some? then FellBack(fallback.value) else Refused, false;
        }
      }
      match outcome
      case Value(v) =>
        RecordSuccess();
        reply, invoked := Returned(v), true;
      case Expected =>
        RecordFailure(finish);
        reply, invoked := if fallback.Some? then FellBack(fallback.value) else Raised, true;
      case Unexpected =>
        reply, invoked := Raised, true;
    }
  }

  // ---- overlapping calls

  datatype Step = Arrive(now: real) | Succeed | Fail(now: real)

  function Do(b: Breaker, cfg: Config, step: Step): Breaker {
    match step
    case Arrive(now) => Admit(b, cfg, now).1
    case Succeed => OnSuccess(b)
    case Fail(now) => OnFailure(b, cfg, now)
  }

  function Play(b: Breaker, cfg: Config, steps: seq<Step>): Breaker {
    if steps == [] then b else Do(Play(b, cfg, steps[..|steps| - 1]), cfg, steps[|steps| - 1])
  }

  /** However calls overlap, the breaker is closed exactly while fewer failures than the threshold stand against it. */
  lemma {:induction false} ClosedIffBelowThreshold(cfg: Config, since: real, steps: seq<Step>)
    requires cfg.threshold >= 1
    ensures var b := Play(Fresh(since), cfg, steps); b.failures >= 0 && (b.state == CLOSED <==> b.failures < cfg.threshold)
  {
    if steps != [] {
      ClosedIffBelowThreshold(cfg, since, steps[..|steps| - 1]);
    }
  }

  function Successes(steps: seq<Step>): nat {
    if steps == [] then 0
    else Successes(steps[..|steps| - 1]) + if steps[|steps| - 1].Succeed? then 1 else 0
  }

  /** The failures after the last success, or all of them when there is none. */
  function FailsSince(steps: seq<Step>): nat {
    if steps == [] || steps[|steps| - 1].Succeed? then 0
    else FailsSince(steps[..|steps| - 1]) + if steps[|steps| - 1].Fail? then 1 else 0
  }

  /** Steps after a trip of `b` and before its recovery time: no call arrives later, and no failure is dated earlier. */
  ghost predicate BeforeRecovery(b: Breaker, cfg: Config, steps: seq<Step>) {
    && (forall step :: step in steps && step.Arrive? ==> step.now < b.lastChange + cfg.recovery)
    && (forall step :: step in steps && step.Fail? ==> step.now >= b.lastChange)
  }

  lemma {:induction false} StateBeforeRecovery(b: Breaker, cfg: Config, steps: seq<Step>)
    requires b.state == OPEN && b.failures + 1 >= cfg.threshold && BeforeRecovery(b, cfg, steps)
    ensures var e := Play(b, cfg, steps);
      && (Successes(steps) == 0 ==> e.state == OPEN && e.failures >= b.failures)
      && (Successes(steps) == 0 || cfg.threshold >= 1 ==> e.state == OPEN ==> e.lastChange >= b.lastChange)
      && (Successes(steps) > 0 && cfg.threshold >= 1 ==>
            e.failures == FailsSince(steps) && e.state == if FailsSince(steps) < cfg.threshold then CLOSED else OPEN)
  {
    if steps != [] {
      var before, last := steps[..|steps| - 1], steps[|steps| - 1];
      assert last in steps && forall step :: step in before ==> step in steps;
      StateBeforeRecovery(b, cfg, before);
    }
  }

  /**
    Before its recovery time a tripped breaker admits a call exactly if some call has succeeded since the trip, a late
    one included, and fewer failures than the threshold have followed the last success.
   */
  lemma EarlyAdmissionIff(b: Breaker, cfg: Config, steps: seq<Step>, now: real)
    requires b.state == OPEN && now < b.lastChange + cfg.recovery && b.failures + 1 >= cfg.threshold >= 1
    requires BeforeRecovery(b, cfg, steps)
    ensures Admit(Play(b, cfg, steps), cfg, now).0 <==> Successes(steps) > 0 && FailsSince(steps) < cfg.threshold
  {
    StateBeforeRecovery(b, cfg, steps);
  }

  lemma {:induction false} NoSuccesses(steps: seq<Step>)
    ensures Successes(steps) == 0 <==> forall step :: step in steps ==> !step.Succeed?
  {
    if steps != [] {
      NoSuccesses(steps[..|steps| - 1]);
      assert forall step :: step in steps <==> step in steps[..|steps| - 1] || step == steps[|steps| - 1];
    }
  }

  /** Without a success it stays open and admits nobody, whatever failures still arrive. */
  lemma OpenFailsFast(b: Breaker, cfg: Config, steps: seq<Step>, now: real)
    requires b.state == OPEN && now < b.lastChange + cfg.recovery && b.failures + 1 >= cfg.threshold
    requires BeforeRecovery(b, cfg, steps) && forall step :: step in steps ==> !step.Succeed?
    ensures var e := Play(b, cfg, steps);
      e.state == OPEN && e.lastChange >= b.lastChange && e.failures >= b.failures && !Admit(e, cfg, now).0
  {
    NoSuccesses(steps);
    StateBeforeRecovery(b, cfg, steps);
  }

  /** One success is enough to close it early, even that of a call admitted before the trip. */
  lemma LateSuccessReopens(b: Breaker, cfg: Config, now: real)
    requires b.state == OPEN && now < b.lastChange + cfg.recovery
    ensures !Admit(b, cfg, now).0 && Admit(Play(b, cfg, [Succeed]), cfg, now).0
  {
    assert Play(b, cfg, [Succeed]) == OnSuccess(b) by { assert [Succeed][..0] == []; }
  }

  // ---- exactly when a call is admitted

  /** When the last failure was. */
  function LastFail(steps: seq<Step>): real {
    if steps == [] then 0.0
    else
      match steps[|steps| - 1]
      case Fail(now) => now
      case _ => LastFail(steps[..|steps| - 1])
  }

  /** Since the last result some call has arrived a recovery time or more after the last failure. */
  predicate ProbedSince(cfg: Config, steps: seq<Step>) {
    steps != [] &&
    match steps[|steps| - 1]
    case Arrive(now) => ProbedSince(cfg, steps[..|steps| - 1]) || now - LastFail(steps) >= cfg.recovery
    case _ => false
  }

  lemma {:induction false} StateAfter(cfg: Config, since: real, steps: seq<Step>)
    requires cfg.threshold >= 1
    ensures var b := Play(Fresh(since), cfg, steps);
      && b.failures == FailsSince(steps)
      && b.state == (if FailsSince(steps) < cfg.threshold then CLOSED else if ProbedSince(cfg, steps) then HALF_OPEN else OPEN)
      && (b.state != CLOSED ==> b.lastChange == LastFail(steps))
  {
    if steps != [] {
      StateAfter(cfg, since, steps[..|steps| - 1]);
    }
  }

  /**
    However calls overlap: a call is admitted exactly if fewer failures than the threshold have followed the last
    success, or the recovery time has passed since the last failure, for this call or for one before it.
   */
  lemma AdmitsIff(cfg: Config, since: real, steps: seq<Step>, now: real)
    requires cfg.threshold >= 1
    ensures Admit(Play(Fresh(since), cfg, steps), cfg, now).0 <==>
      FailsSince(steps) < cfg.threshold || ProbedSince(cfg, steps) || now - LastFail(steps) >= cfg.recovery
  {
    StateAfter(cfg, since, steps);
  }

  /** A success then lets everybody in; a failure at or past the threshold keeps everybody out for a recovery time. */
  lemma ProbeDecides(cfg: Config, since: real, steps: seq<Step>, failed: real, now: real)
    requires cfg.threshold >= 1
    ensures Admit(Play(Fresh(since), cfg, steps + [Succeed]), cfg, now).0
    ensures FailsSince(steps) + 1 >= cfg.threshold ==>
      (Admit(Play(Fresh(since), cfg, steps + [Fail(failed)]), cfg, now).0 <==> now - failed >= cfg.recovery)
  {
    assert (steps + [Succeed])[..|steps|] == steps && (steps + [Fail(failed)])[..|steps|] == steps;
    AdmitsIff(cfg, since, steps + [Succeed], now);
    AdmitsIff(cfg, since, steps + [Fail(failed)], now);
  }

  // ---- an operation that always fails, called one call at a time

  datatype Attempt = Attempt(start: real, finish: real)

  ghost predicate Sequential(calls: seq<Attempt>, since: real) {
    && (forall i :: 0 <= i < |calls| ==> since <= calls[i].start <= calls[i].finish)
    && (forall i, j :: 0 <= i < j < |calls| ==> calls[i].finish <= calls[j].start)
  }

  /** The breaker after the calls, and how many reached the operation. */
  function Failing(cfg: Config, since: real, calls: seq<Attempt>): (Breaker, nat) {
    if calls == [] then (Fresh(since), 0)
    else
      var (b, n) := Failing(cfg, since, calls[..|calls| - 1]);
      var (admitted, b') := Admit(b, cfg, calls[|calls| - 1].start);
      if admitted then (OnFailure(b', cfg, calls[|calls| - 1].finish), n + 1) else (b', n)
  }

  /** So many recovery times. */
  function Recoveries(n: nat, recovery: real): real {
    if n == 0 then 0.0 else Recoveries(n - 1, recovery) + recovery
  }

  lemma {:induction false} RecoveriesMultiply(n: nat, recovery: real)
    ensures Recoveries(n, recovery) == n as real * recovery
  {
    if n > 0 {
      RecoveriesMultiply(n - 1, recovery);
    }
  }

  ghost predicate Paced(cfg: Config, since: real, b: Breaker, n: nat) {
    && b.failures == n
    && (b.state == CLOSED <==> n < cfg.threshold)
    && b.state != HALF_OPEN
    && (b.state == OPEN ==> n >= cfg.threshold >= 1 && b.lastChange >= since + Recoveries(n - cfg.threshold, cfg.recovery))
  }

  lemma {:induction false} FailuresArePaced(cfg: Config, since: real, calls: seq<Attempt>)
    requires Sequential(calls, since) && cfg.threshold >= 1
    ensures Paced(cfg, since, Failing(cfg, since, calls).0, Failing(cfg, since, calls).1)
  {
    if calls != [] {
      FailuresArePaced(cfg, since, calls[..|calls| - 1]);
    }
  }

  lemma CallsTakeTime(cfg: Config, since: real, calls: seq<Attempt>)
    requires Sequential(calls, since) && cfg.threshold >= 1 && calls != []
    ensures var n := Failing(cfg, since, calls).1;
      n > cfg.threshold ==> Recoveries(n - cfg.threshold, cfg.recovery) <= calls[|calls| - 1].finish - since
  {
    FailuresArePaced(cfg, since, calls);
    LastChangeWithin(cfg, since, calls);
  }

  /** A broken dependency is called at most `threshold` times plus once per recovery time elapsed. */
  lemma BrokenDependencyIsSpared(cfg: Config, since: real, calls: seq<Attempt>)
    requires Sequential(calls, since) && cfg.threshold >= 1 && calls != []
    ensures var n := Failing(cfg, since, calls).1;
      n > cfg.threshold ==> (n - cfg.threshold) as real * cfg.recovery <= calls[|calls| - 1].finish - since
  {
    CallsTakeTime(cfg, since, calls);
    var n := Failing(cfg, since, calls).1;
    if n > cfg.threshold {
      RecoveriesMultiply(n - cfg.threshold, cfg.recovery);
    }
  }

  lemma {:induction false} LastChangeWithin(cfg: Config, since: real, calls: seq<Attempt>)
    requires Sequential(calls, since)
    ensures Failing(cfg, since, calls).0.lastChange <= if calls == [] then since else calls[|calls| - 1].finish
  {
    if calls != [] {
      LastChangeWithin(cfg, since, calls[..|calls| - 1]);
    }
  }
}
