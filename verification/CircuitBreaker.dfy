/** The circuit breaker, and the two numbers of its history that decide what it lets through. */
module CircuitBreaker {
  import opened Uris

  datatype Phase = CLOSED | OPEN | HALF_OPEN

  datatype Settings = Settings(failureThreshold: int, recoveryTimeout: real)

  datatype Breaker = Breaker(phase: Phase, failures: nat, lastStateChange: real)

  /** A call on the breaker; `Ask` is `allow_request`. */
  datatype Call = Success(at: real) | Failure(at: real) | Ask(at: real)

  function Fresh(now: real): Breaker {
    Breaker(CLOSED, 0, now)
  }

  function AfterCall(c: Settings, b: Breaker, call: Call): Breaker {
    match call
    case Success(_) => b.(phase := CLOSED, failures := 0)
    case Failure(now) =>
      if b.failures + 1 >= c.failureThreshold
      then Breaker(OPEN, b.failures + 1, now)
      else b.(failures := b.failures + 1)
    case Ask(now) =>
      if b.phase == OPEN && now - b.lastStateChange > c.recoveryTimeout
      then b.(phase := HALF_OPEN, lastStateChange := now)
      else b
  }

  /** What `allow_request` answers. */
  predicate Allows(c: Settings, b: Breaker, now: real) {
    b.phase != OPEN || now - b.lastStateChange > c.recoveryTimeout
  }

  function Run(c: Settings, start: real, calls: seq<Call>): Breaker {
    if calls == [] then Fresh(start) else AfterCall(c, Run(c, start, calls[..|calls| - 1]), calls[|calls| - 1])
  }

  // ---------------------------------------------------------------- the history

  /** How many failures were recorded after the last success. */
  function FailuresSince(calls: seq<Call>): nat {
    if calls == [] then 0
    else
      var last, before := calls[|calls| - 1], calls[..|calls| - 1];
      if last.Success? then 0 else FailuresSince(before) + (if last.Failure? then 1 else 0)
  }

  /** When the latest failure after the last success was recorded. */
  function LastFailure(calls: seq<Call>): Option<real> {
    if calls == [] then None
    else
      var last, before := calls[|calls| - 1], calls[..|calls| - 1];
      if last.Success? then None else if last.Failure? then Some(last.at) else LastFailure(before)
  }

  /** Even a threshold below one needs one failure to trip. */
  function Trip(c: Settings): nat {
    if c.failureThreshold < 1 then 1 else c.failureThreshold
  }

  ghost predicate Monotone(calls: seq<Call>) {
    forall i, j | 0 <= i < j < |calls| :: calls[i].at <= calls[j].at
  }

  ghost predicate Denied(c: Settings, calls: seq<Call>, now: real) {
    && FailuresSince(calls) >= Trip(c)
    && LastFailure(calls).Some?
    && now - LastFailure(calls).value <= c.recoveryTimeout
  }

  lemma {:induction false} RunMatchesHistory(c: Settings, start: real, calls: seq<Call>)
    requires Monotone(calls)
    ensures var b := Run(c, start, calls);
            && b.failures == FailuresSince(calls)
            && (b.phase == CLOSED <==> FailuresSince(calls) < Trip(c))
            && (LastFailure(calls).Some? <==> FailuresSince(calls) > 0)
            && (b.phase == OPEN ==> LastFailure(calls) == Some(b.lastStateChange))
            && (b.phase == HALF_OPEN ==>
                  && calls != [] && b.lastStateChange <= calls[|calls| - 1].at
                  && b.lastStateChange - LastFailure(calls).value > c.recoveryTimeout)
  {
    if calls != [] {
      var front := calls[..|calls| - 1];
      RunMatchesHistory(c, start, front);
      assert front != [] ==> front[|front| - 1].at <= calls[|calls| - 1].at;
    }
  }

  /** Over every sequence of calls with a clock that never goes back, for any threshold: a request
      is denied if and only if enough failures came after the last success and the latest of them
      is no older than the recovery timeout; and the breaker is CLOSED exactly below that count. */
  lemma BreakerExact(c: Settings, start: real, calls: seq<Call>, now: real)
    requires Monotone(calls) && forall k | k in calls :: k.at <= now
    ensures var b := Run(c, start, calls);
            && (!Allows(c, b, now) <==> Denied(c, calls, now))
            && (b.phase == CLOSED <==> FailuresSince(calls) < Trip(c))
  {
    RunMatchesHistory(c, start, calls);
    assert calls != [] ==> calls[|calls| - 1] in calls;
  }

  /** Call `i` is a question that was let through after the latest failure: no outcome came after it,
      and it was asked later than the recovery timeout. */
  ghost predicate Probe(c: Settings, calls: seq<Call>, i: nat) {
    && i < |calls| && calls[i].Ask? && LastFailure(calls).Some?
    && calls[i].at - LastFailure(calls).value > c.recoveryTimeout
    && forall j | i < j < |calls| :: calls[j].Ask?
  }

  /** The phase is what the history makes it: closed below the count; from there on open until a
      question comes later than the timeout after the latest failure, and half open since. */
  lemma {:induction false} PhaseExact(c: Settings, start: real, calls: seq<Call>)
    requires Monotone(calls)
    ensures Run(c, start, calls).phase ==
            if FailuresSince(calls) < Trip(c) then CLOSED
            else if exists i: nat :: Probe(c, calls, i) then HALF_OPEN else OPEN
  {
    RunMatchesHistory(c, start, calls);
    if calls != [] {
      var n := |calls| - 1;
      var front, last := calls[..n], calls[n];
      PhaseExact(c, start, front);
      RunMatchesHistory(c, start, front);
      if last.Ask? {
        assert LastFailure(calls) == LastFailure(front);
        if i: nat :| Probe(c, front, i) {
          assert Probe(c, calls, i);
        }
        if i: nat :| Probe(c, calls, i) && i < n {
          assert forall j | i < j < n :: front[j] == calls[j];
          assert Probe(c, front, i);
        }
        assert LastFailure(calls).Some? && last.at - LastFailure(calls).value > c.recoveryTimeout ==> Probe(c, calls, n);
      } else {
        assert forall i: nat | i <= n :: !Probe(c, calls, i);
      }
    }
  }
}
