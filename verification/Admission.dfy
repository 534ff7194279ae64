/**
 What stands in front of every tool: the circuit breaker, then the caller's token bucket, then
 the tool itself, whose outcome is recorded. Requests overlap, so admitting and finishing are
 separate steps that interleave freely.
 */
module Admission {
  import opened Uris
  import R = RateLimit
  import C = CircuitBreaker

  datatype Caller = Caller(subject: string, workspace: string, tool: string)

  datatype Config = Config(limits: R.Limits, settings: C.Settings, breakerEnabled: bool, limiterEnabled: bool)

  type Buckets = map<Caller, R.Bucket>

  /** `is_allowed`: the caller's bucket is opened on first use and then consumed from. */
  function Limit(l: R.Limits, buckets: Buckets, caller: Caller, now: real): (Buckets, bool) {
    var b := if caller in buckets then buckets[caller] else R.Opened(l, now);
    var (c, accepted) := R.Consume(l, b, now);
    (buckets[caller := c], accepted)
  }

  datatype Event =
    | Admit(caller: Caller, now: real)
    | Finish(ticket: nat, ok: bool, now: real)

  datatype Decision = BreakerOpen | RateLimited | Started(ticket: nat) | Recorded | NotRunning

  datatype Entry = Entry(event: Event, decision: Decision)

  /** `running` are the tickets of the calls under way. */
  datatype State = State(breaker: C.Breaker, buckets: Buckets, running: set<nat>, nextTicket: nat)

  function Step(cfg: Config, s: State, e: Event): (State, Decision) {
    match e
    case Admit(caller, now) =>
      if cfg.breakerEnabled && !C.Allows(cfg.settings, s.breaker, now) then (s, BreakerOpen)
      else
        var s1 := if cfg.breakerEnabled then s.(breaker := C.AfterCall(cfg.settings, s.breaker, C.Ask(now))) else s;
        var (buckets, accepted) := if cfg.limiterEnabled then Limit(cfg.limits, s.buckets, caller, now) else (s.buckets, true);
        var s2 := s1.(buckets := buckets);
        if !accepted then (s2, RateLimited)
        else (s2.(running := s.running + {s.nextTicket}, nextTicket := s.nextTicket + 1), Started(s.nextTicket))
    case Finish(ticket, ok, now) =>
      if ticket !in s.running then (s, NotRunning)
      else
        var call := if ok then C.Success(now) else C.Failure(now);
        var breaker := if cfg.breakerEnabled then C.AfterCall(cfg.settings, s.breaker, call) else s.breaker;
        (s.(running := s.running - {ticket}, breaker := breaker), Recorded)
  }

  function Run(cfg: Config, start: real, events: seq<Event>): (State, seq<Entry>) {
    if events == [] then (State(C.Fresh(start), map[], {}, 0), [])
    else
      var (s, log) := Run(cfg, start, events[..|events| - 1]);
      var (t, d) := Step(cfg, s, events[|events| - 1]);
      (t, log + [Entry(events[|events| - 1], d)])
  }

  // ---------------------------------------------------------------- projections of the log

  predicate ReachedLimiter(e: Entry, caller: Caller) {
    e.event.Admit? && e.event.caller == caller && e.decision != BreakerOpen
  }

  /** When a caller's requests reached the limiter. */
  function LimiterTimes(log: seq<Entry>, caller: Caller): seq<real> {
    if log == [] then []
    else
      var last := log[|log| - 1];
      LimiterTimes(log[..|log| - 1], caller) + (if ReachedLimiter(last, caller) then [last.event.now] else [])
  }

  /** How they were answered. */
  function LimiterAnswers(log: seq<Entry>, caller: Caller): seq<R.Attempt> {
    if log == [] then []
    else
      var last := log[|log| - 1];
      LimiterAnswers(log[..|log| - 1], caller)
        + (if ReachedLimiter(last, caller) then [R.Attempt(last.event.now, last.decision.Started?)] else [])
  }

  /** The calls made on the breaker. */
  function BreakerCalls(log: seq<Entry>): seq<C.Call> {
    if log == [] then []
    else
      var last := log[|log| - 1];
      BreakerCalls(log[..|log| - 1]) + BreakerCall(last)
  }

  function BreakerCall(e: Entry): seq<C.Call> {
    match e.event
    case Admit(_, now) => [C.Ask(now)]
    case Finish(_, ok, now) =>
      if e.decision != Recorded then [] else if ok then [C.Success(now)] else [C.Failure(now)]
  }

  function Count(log: seq<Entry>, event: (Entry) -> bool): nat {
    if log == [] then 0
    else Count(log[..|log| - 1], event) + (if event(log[|log| - 1]) then 1 else 0)
  }

  function Starts(ticket: nat): Entry -> bool {
    (e: Entry) => e.decision == Started(ticket)
  }

  function Outcomes(ticket: nat): Entry -> bool {
    (e: Entry) => e.event.Finish? && e.event.ticket == ticket && e.decision == Recorded
  }

  // ---------------------------------------------------------------- main results

  lemma ReplaySnoc(l: R.Limits, since: real, times: seq<real>, now: real)
    ensures var (b, log) := R.Replay(l, since, times);
            var (c, accepted) := R.Consume(l, b, now);
            R.Replay(l, since, times + [now]) == (c, log + [R.Attempt(now, accepted)])
  {
    assert (times + [now])[..|times|] == times;
  }

  /** What one step does to one caller's bucket. */
  lemma StepOnCaller(cfg: Config, s: State, e: Event, caller: Caller)
    requires cfg.limiterEnabled
    ensures var (t, d) := Step(cfg, s, e);
            if ReachedLimiter(Entry(e, d), caller) then
              var b := if caller in s.buckets then s.buckets[caller] else R.Opened(cfg.limits, e.now);
              caller in t.buckets && (t.buckets[caller], d.Started?) == R.Consume(cfg.limits, b, e.now)
            else
              && (caller in t.buckets <==> caller in s.buckets)
              && (caller in s.buckets ==> t.buckets[caller] == s.buckets[caller])
  {
    hide R.Consume, R.Opened, C.AfterCall, C.Allows;
  }

  lemma LogSnoc(log: seq<Entry>, entry: Entry, caller: Caller)
    ensures LimiterTimes(log + [entry], caller) ==
            if ReachedLimiter(entry, caller) then LimiterTimes(log, caller) + [entry.event.now] else LimiterTimes(log, caller)
    ensures LimiterAnswers(log + [entry], caller) ==
            if ReachedLimiter(entry, caller)
            then LimiterAnswers(log, caller) + [R.Attempt(entry.event.now, entry.decision.Started?)]
            else LimiterAnswers(log, caller)
    ensures BreakerCalls(log + [entry]) == BreakerCalls(log) + BreakerCall(entry)
  {
    assert (log + [entry])[..|log|] == log;
  }

  /** Under any interleaving, each caller is answered exactly as by a bucket of its own, opened
      with its first request and given only its requests that got past the breaker. */
  lemma {:induction false} EachCallerAlone(cfg: Config, start: real, events: seq<Event>, caller: Caller)
    requires cfg.limiterEnabled
    ensures var (s, log) := Run(cfg, start, events);
            var times := LimiterTimes(log, caller);
            if times == [] then caller !in s.buckets && LimiterAnswers(log, caller) == []
            else caller in s.buckets
                 && R.Replay(cfg.limits, times[0], times) == (s.buckets[caller], LimiterAnswers(log, caller))
  {
    if events != [] {
      hide R.Consume, R.Replay, R.Opened, Step, LimiterTimes, LimiterAnswers, ReachedLimiter;
      EachCallerAlone(cfg, start, events[..|events| - 1], caller);
      var (s, log) := Run(cfg, start, events[..|events| - 1]);
      var e := events[|events| - 1];
      var times := LimiterTimes(log, caller);
      StepOnCaller(cfg, s, e, caller);
      LogSnoc(log, Entry(e, Step(cfg, s, e).1), caller);
      if times == [] {
        FirstReplay(cfg.limits, e.now);
        assert times + [e.now] == [e.now];
      } else {
        ReplaySnoc(cfg.limits, times[0], times, e.now);
      }
    } else {
      assert LimiterTimes([], caller) == [];
    }
  }

  lemma FirstReplay(l: R.Limits, now: real)
    ensures var (c, accepted) := R.Consume(l, R.Opened(l, now), now);
            R.Replay(l, now, [now]) == (c, [R.Attempt(now, accepted)])
  {
    ReplayEmpty(l, now);
    ReplaySnoc(l, now, [], now);
    assert [] + [now] == [now];
    var attempt := R.Attempt(now, R.Consume(l, R.Opened(l, now), now).1);
    assert [] + [attempt] == [attempt];
  }

  /** The breaker's state is that of a breaker given one question per request and one outcome per
      finished call; so what `BreakerExact` says of it holds under any interleaving. */
  lemma {:induction false} BreakerSeesOutcomes(cfg: Config, start: real, events: seq<Event>)
    requires cfg.breakerEnabled
    ensures var (s, log) := Run(cfg, start, events);
            s.breaker == C.Run(cfg.settings, start, BreakerCalls(log))
  {
    if events != [] {
      hide C.AfterCall, C.Run, Step, BreakerCalls;
      BreakerSeesOutcomes(cfg, start, events[..|events| - 1]);
      var (s, log) := Run(cfg, start, events[..|events| - 1]);
      var e := events[|events| - 1];
      var entry := Entry(e, Step(cfg, s, e).1);
      LogSnoc(log, entry, Caller("", "", ""));
      StepOnBreaker(cfg, s, e);
      BreakerRunSnoc(cfg.settings, start, BreakerCalls(log), BreakerCall(entry));
    } else {
      NoBreakerCalls(cfg.settings, start);
    }
  }

  lemma StepOnBreaker(cfg: Config, s: State, e: Event)
    requires cfg.breakerEnabled
    ensures var (t, d) := Step(cfg, s, e);
            var calls := BreakerCall(Entry(e, d));
            t.breaker == if calls == [] then s.breaker else C.AfterCall(cfg.settings, s.breaker, calls[0])
  {
    hide R.Consume;
  }

  lemma BreakerRunSnoc(c: C.Settings, start: real, calls: seq<C.Call>, more: seq<C.Call>)
    requires |more| <= 1
    ensures C.Run(c, start, calls + more) ==
            if more == [] then C.Run(c, start, calls) else C.AfterCall(c, C.Run(c, start, calls), more[0])
  {
    if more == [] {
      assert calls + more == calls;
    } else {
      assert (calls + more)[..|calls|] == calls;
    }
  }

  lemma NoBreakerCalls(c: C.Settings, start: real)
    ensures BreakerCalls([]) == [] && C.Run(c, start, []) == C.Fresh(start)
  {}

  /** Each started call has exactly one start, and exactly one recorded outcome once it is no
      longer running; nothing else records an outcome. */
  lemma {:induction false} OneOutcomeEach(cfg: Config, start: real, events: seq<Event>, ticket: nat)
    ensures var (s, log) := Run(cfg, start, events);
            && (forall t | t in s.running :: t < s.nextTicket)
            && Count(log, Starts(ticket)) == (if ticket < s.nextTicket then 1 else 0)
            && Count(log, Outcomes(ticket)) == (if ticket < s.nextTicket && ticket !in s.running then 1 else 0)
  {
    hide Limit, C.AfterCall, C.Allows;
    if events != [] {
      OneOutcomeEach(cfg, start, events[..|events| - 1], ticket);
      var (s, log) := Run(cfg, start, events[..|events| - 1]);
      var e := events[|events| - 1];
      var entry := Entry(e, Step(cfg, s, e).1);
      assert (log + [entry])[..|log|] == log;
    }
  }

  /** How many failed runs were recorded since the last successful one. */
  function FailedSince(log: seq<Entry>): nat {
    if log == [] then 0
    else
      var last, before := log[|log| - 1], FailedSince(log[..|log| - 1]);
      if !last.event.Finish? || last.decision != Recorded then before else if last.event.ok then 0 else before + 1
  }

  /** The breaker counts them, under any interleaving; requests, rejected or not, do not change the count. */
  lemma {:induction false} FailuresAreCounted(cfg: Config, start: real, events: seq<Event>)
    requires cfg.breakerEnabled
    ensures var (s, log) := Run(cfg, start, events); s.breaker.failures == FailedSince(log)
  {
    hide Limit;
    if events != [] {
      var front, e := events[..|events| - 1], events[|events| - 1];
      FailuresAreCounted(cfg, start, front);
      var (s, log) := Run(cfg, start, front);
      assert (log + [Entry(e, Step(cfg, s, e).1)])[..|log|] == log;
    }
  }

  ghost predicate MonotoneEvents(start: real, events: seq<Event>) {
    && (forall i | 0 <= i < |events| :: start <= events[i].now)
    && (forall i, j | 0 <= i < j < |events| :: events[i].now <= events[j].now)
  }

  function LatestNow(start: real, events: seq<Event>): real {
    if events == [] then start else events[|events| - 1].now
  }

  lemma MonotonePrefix(start: real, events: seq<Event>)
    requires MonotoneEvents(start, events) && events != []
    ensures MonotoneEvents(start, events[..|events| - 1])
    ensures start <= events[|events| - 1].now && LatestNow(start, events) == events[|events| - 1].now
    ensures start <= LatestNow(start, events[..|events| - 1]) <= LatestNow(start, events)
  {}

  lemma {:induction false} TimesInOrder(cfg: Config, start: real, events: seq<Event>, caller: Caller)
    requires MonotoneEvents(start, events)
    ensures Between(start, LimiterTimes(Run(cfg, start, events).1, caller), LatestNow(start, events))
  {
    if events != [] {
      hide Step, MonotoneEvents, LimiterTimes, Between;
      var front, e := events[..|events| - 1], events[|events| - 1];
      MonotonePrefix(start, events);
      TimesInOrder(cfg, start, front, caller);
      var (s, log) := Run(cfg, start, front);
      LogSnoc(log, Entry(e, Step(cfg, s, e).1), caller);
      OneMoreTime(start, LimiterTimes(log, caller), LatestNow(start, front), e.now);
    }
  }

  lemma OneMoreTime(start: real, times: seq<real>, end: real, now: real)
    requires Between(start, times, end) && start <= now && end <= now
    ensures Between(start, times, now) && Between(start, times + [now], now)
  {}

  /** Times in order, from one moment to another. */
  ghost predicate Between(start: real, times: seq<real>, end: real) {
    && (forall i | 0 <= i < |times| :: start <= times[i] <= end)
    && (forall i, j | 0 <= i < j < |times| :: times[i] <= times[j])
  }

  lemma {:induction false} CallsInOrder(cfg: Config, start: real, events: seq<Event>)
    requires MonotoneEvents(start, events)
    ensures CallsUpTo(BreakerCalls(Run(cfg, start, events).1), LatestNow(start, events))
  {
    if events != [] {
      hide Step, MonotoneEvents, BreakerCalls, CallsUpTo;
      var front, e := events[..|events| - 1], events[|events| - 1];
      MonotonePrefix(start, events);
      CallsInOrder(cfg, start, front);
      var (s, log) := Run(cfg, start, front);
      var entry := Entry(e, Step(cfg, s, e).1);
      LogSnoc(log, entry, Caller("", "", ""));
      OneMoreCall(BreakerCalls(log), entry, LatestNow(start, front));
    }
  }

  lemma OneMoreCall(calls: seq<C.Call>, entry: Entry, end: real)
    requires CallsUpTo(calls, end) && end <= entry.event.now
    ensures CallsUpTo(calls + BreakerCall(entry), entry.event.now)
  {}

  /** Calls in the order of their times, none after `end`. */
  ghost predicate CallsUpTo(calls: seq<C.Call>, end: real) {
    C.Monotone(calls) && forall i | 0 <= i < |calls| :: calls[i].at <= end
  }

  /** The whole front door: over any interleaving with a clock that never goes back, a request is
      started if and only if the breaker's history does not deny it and it overfills no window of
      its own caller's accepted requests since that caller's first one, each as far as it is enabled. */
  lemma AdmittedIff(cfg: Config, start: real, events: seq<Event>, caller: Caller, now: real)
    requires cfg.limiterEnabled ==> cfg.limits.rps >= 0.0
    requires MonotoneEvents(start, events + [Admit(caller, now)])
    ensures var (s, log) := Run(cfg, start, events);
            var times := LimiterTimes(log, caller);
            var since := if times == [] then now else times[0];
            Step(cfg, s, Admit(caller, now)).1.Started? <==>
              && (cfg.breakerEnabled ==> !C.Denied(cfg.settings, BreakerCalls(log), now))
              && (cfg.limiterEnabled ==> R.Conforms(cfg.limits, since, LimiterAnswers(log, caller), now))
  {
    hide R.Conforms, R.Consume, C.Denied, C.AfterCall, C.Allows, Run, LimiterTimes, LimiterAnswers, BreakerCalls, MonotoneEvents;
    NowIsLatest(start, events, Admit(caller, now));
    if cfg.limiterEnabled { LimiterAdmits(cfg, start, events, caller, now); }
    if cfg.breakerEnabled { BreakerAdmits(cfg, start, events, now); }
  }

  lemma LimiterAdmits(cfg: Config, start: real, events: seq<Event>, caller: Caller, now: real)
    requires cfg.limiterEnabled && cfg.limits.rps >= 0.0
    requires MonotoneEvents(start, events) && LatestNow(start, events) <= now
    ensures var (s, log) := Run(cfg, start, events);
            var times := LimiterTimes(log, caller);
            var since := if times == [] then now else times[0];
            Limit(cfg.limits, s.buckets, caller, now).1 <==> R.Conforms(cfg.limits, since, LimiterAnswers(log, caller), now)
  {
    hide R.Conforms, R.Refilled, R.Replay, Run, LimiterTimes, LimiterAnswers, MonotoneEvents;
    var (s, log) := Run(cfg, start, events);
    var times := LimiterTimes(log, caller);
    var since := if times == [] then now else times[0];
    EachCallerAlone(cfg, start, events, caller);
    TimesInOrder(cfg, start, events, caller);
    assert R.Monotone(since, times + [now]);
    ReplayEmpty(cfg.limits, since);
    R.BucketExact(cfg.limits, since, times, now);
  }

  lemma BreakerAdmits(cfg: Config, start: real, events: seq<Event>, now: real)
    requires cfg.breakerEnabled && MonotoneEvents(start, events) && LatestNow(start, events) <= now
    ensures var (s, log) := Run(cfg, start, events);
            C.Allows(cfg.settings, s.breaker, now) <==> !C.Denied(cfg.settings, BreakerCalls(log), now)
  {
    hide C.Denied, C.Run, C.AfterCall, Run, BreakerCalls, MonotoneEvents;
    var (s, log) := Run(cfg, start, events);
    BreakerSeesOutcomes(cfg, start, events);
    CallsInOrder(cfg, start, events);
    C.BreakerExact(cfg.settings, start, BreakerCalls(log), now);
  }

  lemma NowIsLatest(start: real, events: seq<Event>, e: Event)
    requires MonotoneEvents(start, events + [e])
    ensures MonotoneEvents(start, events) && LatestNow(start, events) <= e.now
  {
    var all := events + [e];
    assert forall i | 0 <= i < |events| :: events[i] == all[i];
    assert all[|events|] == e;
    assert events != [] ==> all[|events| - 1].now <= all[|events|].now;
  }

  lemma ReplayEmpty(l: R.Limits, since: real)
    ensures R.Replay(l, since, []) == (R.Opened(l, since), [])
  {}

  // ---------------------------------------------------------------- rejected requests leave no trace

  predicate Rejected(e: Entry) {
    e.decision == BreakerOpen || e.decision == RateLimited
  }

  /** The log without the requests that were turned away. */
  function Kept(log: seq<Entry>): seq<Entry> {
    if log == [] then []
    else
      var last := log[|log| - 1];
      Kept(log[..|log| - 1]) + (if Rejected(last) then [] else [last])
  }

  function EventsOf(log: seq<Entry>): seq<Event> {
    seq(|log|, i requires 0 <= i < |log| => log[i].event)
  }

  lemma KeptSnoc(log: seq<Entry>, entry: Entry)
    ensures Kept(log + [entry]) == if Rejected(entry) then Kept(log) else Kept(log) + [entry]
    ensures EventsOf(Kept(log) + [entry]) == EventsOf(Kept(log)) + [entry.event]
  {
    assert (log + [entry])[..|log|] == log;
  }

  lemma RunSnoc(cfg: Config, start: real, events: seq<Event>, e: Event)
    ensures var (s, log) := Run(cfg, start, events);
            var (t, d) := Step(cfg, s, e);
            Run(cfg, start, events + [e]) == (t, log + [Entry(e, d)])
  {
    assert (events + [e])[..|events|] == events;
  }

  /** The history that the breaker decides by is that of the kept calls. */
  lemma {:induction false} KeptBreakerHistory(log: seq<Entry>)
    requires forall i | 0 <= i < |log| && Rejected(log[i]) :: log[i].event.Admit?
    ensures C.FailuresSince(BreakerCalls(Kept(log))) == C.FailuresSince(BreakerCalls(log))
    ensures C.LastFailure(BreakerCalls(Kept(log))) == C.LastFailure(BreakerCalls(log))
  {
    hide BreakerCalls, BreakerCall, Kept, C.FailuresSince, C.LastFailure;
    if log == [] {
      NothingKept();
    } else {
      var front, entry := log[..|log| - 1], log[|log| - 1];
      assert log == front + [entry];
      KeptBreakerHistory(front);
      KeptSnoc(front, entry);
      AtMostOneCall(entry);
      LogSnoc(front, entry, Caller("", "", ""));
      LogSnoc(Kept(front), entry, Caller("", "", ""));
      HistorySnoc(BreakerCalls(front), BreakerCall(entry));
      HistorySnoc(BreakerCalls(Kept(front)), BreakerCall(entry));
    }
  }

  lemma AtMostOneCall(e: Entry)
    ensures |BreakerCall(e)| <= 1
    ensures e.event.Admit? ==> BreakerCall(e) == [C.Ask(e.event.now)]
  {}

  lemma HistorySnoc(calls: seq<C.Call>, more: seq<C.Call>)
    requires |more| <= 1
    ensures C.FailuresSince(calls + more) ==
            if more == [] || more[0].Ask? then C.FailuresSince(calls)
            else if more[0].Success? then 0 else C.FailuresSince(calls) + 1
    ensures C.LastFailure(calls + more) ==
            if more == [] || more[0].Ask? then C.LastFailure(calls)
            else if more[0].Success? then None else Some(more[0].at)
  {
    if more == [] {
      assert calls + more == calls;
    } else {
      assert (calls + more)[..|calls|] == calls;
    }
  }

  /** The kept calls of a caller hold all its accepted ones. */
  lemma {:induction false} KeptGrants(log: seq<Entry>, caller: Caller, since: real)
    ensures R.GrantedSince(LimiterAnswers(Kept(log), caller), since) == R.GrantedSince(LimiterAnswers(log, caller), since)
  {
    if log != [] {
      hide LimiterAnswers, LimiterTimes, ReachedLimiter, Kept, R.GrantedSince;
      var front, entry := log[..|log| - 1], log[|log| - 1];
      assert log == front + [entry];
      KeptGrants(front, caller, since);
      KeptSnoc(front, entry);
      LogSnoc(front, entry, caller);
      LogSnoc(Kept(front), entry, caller);
      var attempt := R.Attempt(entry.event.now, entry.decision.Started?);
      GrantedSinceSnoc(LimiterAnswers(front, caller), attempt, since);
      GrantedSinceSnoc(LimiterAnswers(Kept(front), caller), attempt, since);
    }
  }

  lemma {:induction false} KeptTime(log: seq<Entry>, caller: Caller, t: real)
    requires t in LimiterTimes(Kept(log), caller)
    ensures t in LimiterTimes(log, caller)
  {
    hide LimiterAnswers, LimiterTimes, ReachedLimiter, Kept;
    if log == [] {
      NothingKept();
    } else {
      var front, entry := log[..|log| - 1], log[|log| - 1];
      assert log == front + [entry];
      KeptSnoc(front, entry);
      LogSnoc(front, entry, caller);
      LogSnoc(Kept(front), entry, caller);
      if t in LimiterTimes(Kept(front), caller) { KeptTime(front, caller, t); }
    }
  }

  lemma GrantedSinceSnoc(log: seq<R.Attempt>, a: R.Attempt, s: real)
    ensures R.GrantedSince(log + [a], s) == R.GrantedSince(log, s) + (if a.accepted && a.at >= s then 1 else 0)
  {
    assert (log + [a])[..|log|] == log;
  }

  lemma {:induction false} KeptInOrder(cfg: Config, start: real, events: seq<Event>)
    requires MonotoneEvents(start, events)
    ensures var kept := EventsOf(Kept(Run(cfg, start, events).1));
            MonotoneEvents(start, kept) && LatestNow(start, kept) <= LatestNow(start, events)
  {
    if events != [] {
      hide Kept, EventsOf, Step, MonotoneEvents;
      var front, e := events[..|events| - 1], events[|events| - 1];
      MonotonePrefix(start, events);
      KeptInOrder(cfg, start, front);
      var (s, log) := Run(cfg, start, front);
      KeptSnoc(log, Entry(e, Step(cfg, s, e).1));
      OrderedSnoc(start, EventsOf(Kept(log)), e);
    }
  }

  lemma {:induction false} OnlyRequestsRejected(cfg: Config, start: real, events: seq<Event>)
    ensures var log := Run(cfg, start, events).1;
            forall i | 0 <= i < |log| && Rejected(log[i]) :: log[i].event.Admit?
  {
    hide C.AfterCall, C.Allows, Limit;
    if events != [] {
      var front, e := events[..|events| - 1], events[|events| - 1];
      assert events == front + [e];
      OnlyRequestsRejected(cfg, start, front);
      RunSnoc(cfg, start, front, e);
    }
  }

  lemma OrderedSnoc(start: real, events: seq<Event>, e: Event)
    requires MonotoneEvents(start, events) && start <= e.now && LatestNow(start, events) <= e.now
    ensures MonotoneEvents(start, events + [e]) && LatestNow(start, events + [e]) == e.now
  {}

  /** What conforms over a longer time and more calls conforms over the kept ones. */
  lemma KeptConforms(l: R.Limits, since: real, later: real, log: seq<R.Attempt>, kept: seq<R.Attempt>, now: real)
    requires since <= later && R.Conforms(l, since, log, now)
    requires forall s: real :: R.GrantedSince(kept, s) == R.GrantedSince(log, s)
    ensures R.Conforms(l, later, kept, now)
  {
    hide R.GrantedSince, R.Flow;
  }

  /** A started request would have been started, too, had the rejected ones never been made. */
  lemma StartedWithoutRejected(cfg: Config, start: real, events: seq<Event>, caller: Caller, now: real)
    requires cfg.limiterEnabled ==> cfg.limits.rps >= 0.0
    requires MonotoneEvents(start, events + [Admit(caller, now)])
    requires Step(cfg, Run(cfg, start, events).0, Admit(caller, now)).1.Started?
    requires var log := Run(cfg, start, events).1; Run(cfg, start, EventsOf(Kept(log))).1 == Kept(log)
    ensures var log := Run(cfg, start, events).1;
            Step(cfg, Run(cfg, start, EventsOf(Kept(log))).0, Admit(caller, now)).1.Started?
  {
    hide Run, Step, Kept, EventsOf, LimiterTimes, LimiterAnswers, BreakerCalls, R.Conforms, R.GrantedSince;
    var log := Run(cfg, start, events).1;
    var kept := EventsOf(Kept(log));
    NowIsLatest(start, events, Admit(caller, now));
    KeptInOrder(cfg, start, events);
    OrderedSnoc(start, kept, Admit(caller, now));
    AdmittedIff(cfg, start, events, caller, now);
    AdmittedIff(cfg, start, kept, caller, now);
    OnlyRequestsRejected(cfg, start, events);
    KeptBreakerHistory(log);
    forall s: real { KeptGrants(log, caller, s); }
    TimesInOrder(cfg, start, events, caller);
    var times, keptTimes := LimiterTimes(log, caller), LimiterTimes(Kept(log), caller);
    var since := if times == [] then now else times[0];
    var later := if keptTimes == [] then now else keptTimes[0];
    if keptTimes != [] { KeptTime(log, caller, keptTimes[0]); }
    if cfg.limiterEnabled {
      KeptConforms(cfg.limits, since, later, LimiterAnswers(log, caller), LimiterAnswers(Kept(log), caller), now);
    }
  }

  /** Two states with the same calls under way answer a kept event alike, if a start is one in both. */
  lemma StepsAlike(cfg: Config, s: State, t: State, e: Event)
    requires s.running == t.running && s.nextTicket == t.nextTicket
    ensures var (s', d), (t', c) := Step(cfg, s, e), Step(cfg, t, e);
            if Rejected(Entry(e, d)) then s'.running == s.running && s'.nextTicket == s.nextTicket
            else (d.Started? ==> c.Started?) ==> c == d && t'.running == s'.running && t'.nextTicket == s'.nextTicket
  {
    hide C.AfterCall, C.Allows, Limit;
  }

  /** Rejected requests, by the breaker or by the limiter, might as well not have been made: without
      them every other request is answered the same, tickets included, and the same calls run. */
  lemma {:induction false} RejectionsLeaveNoTrace(cfg: Config, start: real, events: seq<Event>)
    requires cfg.limiterEnabled ==> cfg.limits.rps >= 0.0
    requires MonotoneEvents(start, events)
    ensures var (s, log) := Run(cfg, start, events);
            var (t, without) := Run(cfg, start, EventsOf(Kept(log)));
            without == Kept(log) && t.running == s.running && t.nextTicket == s.nextTicket
  {
    if events != [] {
      hide MonotoneEvents, Kept, EventsOf, Step;
      var front, e := events[..|events| - 1], events[|events| - 1];
      assert events == front + [e];
      MonotonePrefix(start, events);
      RejectionsLeaveNoTrace(cfg, start, front);
      var (s, log) := Run(cfg, start, front);
      var entry := Entry(e, Step(cfg, s, e).1);
      KeptSnoc(log, entry);
      RunSnoc(cfg, start, EventsOf(Kept(log)), e);
      StepsAlike(cfg, s, Run(cfg, start, EventsOf(Kept(log))).0, e);
      if entry.decision.Started? {
        StartedWithoutRejected(cfg, start, front, e.caller, e.now);
      }
    } else {
      NothingKept();
    }
  }

  lemma NothingKept()
    ensures Kept([]) == [] && EventsOf([]) == []
  {}
}
