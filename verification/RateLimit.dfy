/**
 Token buckets and the limiter that keeps one bucket per caller. Clock readings are passed in;
 times and token levels are reals.
 */
module RateLimit {

  datatype Limits = Limits(rps: real, burst: int)

  datatype Bucket = Bucket(tokens: real, lastUpdate: real)

  /** What trickles into a bucket over a stretch of time. */
  function Flow(l: Limits, elapsed: real): real {
    elapsed * l.rps
  }

  function Opened(l: Limits, now: real): Bucket {
    Bucket(l.burst as real, now)
  }

  function Refilled(l: Limits, b: Bucket, now: real): real {
    var level := b.tokens + Flow(l, now - b.lastUpdate);
    if level < l.burst as real then level else l.burst as real
  }

  function Consume(l: Limits, b: Bucket, now: real): (Bucket, bool) {
    var level := Refilled(l, b, now);
    if level >= 1.0 then (Bucket(level - 1.0, now), true) else (Bucket(level, now), false)
  }

  /** One call on a bucket and its outcome. */
  datatype Attempt = Attempt(at: real, accepted: bool)

  /** A bucket opened at a time and then called at the given times. */
  function Replay(l: Limits, since: real, times: seq<real>): (Bucket, seq<Attempt>) {
    if times == [] then (Opened(l, since), [])
    else
      var (b, log) := Replay(l, since, times[..|times| - 1]);
      var now := times[|times| - 1];
      var (c, accepted) := Consume(l, b, now);
      (c, log + [Attempt(now, accepted)])
  }

  // ---------------------------------------------------------------- what acceptance means

  /** The accepted calls from call `j` on. */
  function Granted(log: seq<Attempt>, j: nat): nat
    requires j <= |log|
    decreases |log| - j
  {
    if j == |log| then 0 else (if log[j].accepted then 1 else 0) + Granted(log, j + 1)
  }

  /** The accepted calls at or after a moment. */
  function GrantedSince(log: seq<Attempt>, s: real): nat {
    if log == [] then 0
    else
      var last := log[|log| - 1];
      GrantedSince(log[..|log| - 1], s) + (if last.accepted && last.at >= s then 1 else 0)
  }

  /** What the limits leave at `now` for a window that starts at `start` and holds `granted`. */
  function Room(l: Limits, start: real, granted: nat, now: real): real {
    l.burst as real + Flow(l, now - start) - granted as real
  }

  /** No window that ends with this call and starts at the opening or later would be overfull:
      the accepted calls in it, counting this one, are at most burst + rps * length. */
  ghost predicate Conforms(l: Limits, since: real, log: seq<Attempt>, now: real) {
    forall s: real | since <= s <= now :: Fits(l, GrantedSince(log, s), now - s)
  }

  /** One more accepted call does not overfill a window of this length that holds so many. */
  predicate Fits(l: Limits, granted: nat, length: real) {
    granted as real + 1.0 <= l.burst as real + length * l.rps
  }

  lemma FitsByFlow(l: Limits, granted: nat, length: real)
    ensures Fits(l, granted, length) <==> granted as real + 1.0 <= l.burst as real + Flow(l, length)
  {}

  /** The clock readings do not go back, from the opening on. */
  ghost predicate Monotone(since: real, times: seq<real>) {
    && (forall i | 0 <= i < |times| :: since <= times[i])
    && (forall i, j | 0 <= i < j < |times| :: times[i] <= times[j])
  }

  lemma {:induction false} GrantedSnoc(log: seq<Attempt>, a: Attempt, j: nat)
    requires j <= |log|
    ensures Granted(log + [a], j) == Granted(log, j) + (if a.accepted then 1 else 0)
    decreases |log| - j
  {
    if j < |log| {
      GrantedSnoc(log, a, j + 1);
    } else {
      assert Granted(log + [a], j + 1) == 0;
    }
  }

  lemma FlowAdds(l: Limits, a: real, b: real)
    ensures Flow(l, a + b) == Flow(l, a) + Flow(l, b)
    ensures Flow(l, 0.0) == 0.0
  {}

  lemma FlowGrows(l: Limits, a: real, b: real)
    requires l.rps >= 0.0 && a <= b
    ensures Flow(l, a) <= Flow(l, b)
  {
    assert Flow(l, b) - Flow(l, a) == (b - a) * l.rps;
  }

  lemma RoomAdvances(l: Limits, start: real, granted: nat, now: real, later: real)
    ensures Room(l, start, granted, later) == Room(l, start, granted, now) + Flow(l, later - now)
  {
    hide Flow;
    assert later - start == (now - start) + (later - now);
    FlowAdds(l, now - start, later - now);
  }

  ghost predicate Tight(l: Limits, since: real, log: seq<Attempt>, now: real, level: real) {
    || level == Room(l, since, Granted(log, 0), now)
    || exists j :: 0 <= j < |log| && level == Room(l, log[j].at, Granted(log, j), now)
  }

  ghost predicate Below(l: Limits, since: real, log: seq<Attempt>, now: real, level: real) {
    && level <= Room(l, since, Granted(log, 0), now)
    && forall j | 0 <= j < |log| :: level <= Room(l, log[j].at, Granted(log, j), now)
  }

  /** The uncapped level of a bucket is the least room over the window from the opening and the
      windows from each earlier call. */
  lemma {:induction false} LevelIsLeastRoom(l: Limits, since: real, times: seq<real>, now: real)
    ensures var (b, log) := Replay(l, since, times);
            var level := b.tokens + Flow(l, now - b.lastUpdate);
            |log| == |times| && Below(l, since, log, now, level) && Tight(l, since, log, now, level)
  {
    hide Flow;
    if times == [] {
      assert Granted([], 0) == 0;
    } else {
      var t := times[|times| - 1];
      LevelIsLeastRoom(l, since, times[..|times| - 1], t);
      var (b, log) := Replay(l, since, times[..|times| - 1]);
      var level := b.tokens + Flow(l, t - b.lastUpdate);
      var (c, accepted) := Consume(l, b, t);
      CapStep(l, since, log, t, level, Attempt(t, accepted), now);
    }
  }

  /** One call: the new window starts at the call itself, all others lose what it takes. */
  lemma CapStep(l: Limits, since: real, log: seq<Attempt>, t: real, level: real, a: Attempt, now: real)
    requires a.at == t && Below(l, since, log, t, level) && Tight(l, since, log, t, level)
    ensures var capped := if level < l.burst as real then level else l.burst as real;
            var next := capped - (if a.accepted then 1.0 else 0.0) + Flow(l, now - t);
            Below(l, since, log + [a], now, next) && Tight(l, since, log + [a], now, next)
  {
    hide Flow, Granted;
    var capped := if level < l.burst as real then level else l.burst as real;
    var taken := if a.accepted then 1.0 else 0.0;
    var next := capped - taken + Flow(l, now - t);
    var log' := log + [a];
    RoomAdvances(l, since, Granted(log, 0), t, now);
    GrantedSnoc(log, a, 0);
    GrantedEmpty(log');
    forall j | 0 <= j < |log|
      ensures Room(l, log'[j].at, Granted(log', j), now)
                == Room(l, log[j].at, Granted(log, j), t) + Flow(l, now - t) - taken
    {
      GrantedSnoc(log, a, j);
      RoomAdvances(l, log[j].at, Granted(log, j), t, now);
    }
    assert Room(l, log'[|log|].at, Granted(log', |log|), now) == l.burst as real + Flow(l, now - t) - taken by {
      GrantedSnoc(log, a, |log|);
      GrantedEmpty(log);
    }
    if level < l.burst as real {
      if j :| 0 <= j < |log| && level == Room(l, log[j].at, Granted(log, j), t) {
        assert next == Room(l, log'[j].at, Granted(log', j), now);
      }
    } else {
      assert next == Room(l, log'[|log|].at, Granted(log', |log|), now);
    }
  }

  lemma GrantedEmpty(log: seq<Attempt>)
    ensures Granted(log, |log|) == 0
  {}

  // ---------------------------------------------------------------- windows from any moment

  lemma {:induction false} GrantedSinceIndex(log: seq<Attempt>, s: real, j: nat)
    requires j <= |log|
    requires forall i, k | 0 <= i < k < |log| :: log[i].at <= log[k].at
    requires forall i | j <= i < |log| :: log[i].at >= s
    requires forall i | 0 <= i < j :: log[i].at < s
    ensures GrantedSince(log, s) == Granted(log, j)
  {
    if log != [] {
      var front, last := log[..|log| - 1], log[|log| - 1];
      assert log == front + [last];
      if j == |log| {
        GrantedSinceIndex(front, s, j - 1);
        GrantedEmpty(front);
      } else {
        GrantedSinceIndex(front, s, j);
        GrantedSnoc(front, last, j);
      }
    }
  }

  /** A window from call `j` holds at most what a window from that moment holds. */
  lemma {:induction false} GrantedBelowSince(log: seq<Attempt>, s: real, j: nat)
    requires j <= |log|
    requires forall i | j <= i < |log| :: log[i].at >= s
    ensures Granted(log, j) <= GrantedSince(log, s)
  {
    if log != [] {
      var front, last := log[..|log| - 1], log[|log| - 1];
      assert log == front + [last];
      if j < |log| {
        GrantedBelowSince(front, s, j);
        GrantedSnoc(front, last, j);
      }
    }
  }

  lemma {:induction false} ReplayTimes(l: Limits, since: real, times: seq<real>)
    ensures var log := Replay(l, since, times).1;
            |log| == |times| && forall i | 0 <= i < |times| :: log[i].at == times[i]
  {
    if times != [] { ReplayTimes(l, since, times[..|times| - 1]); }
  }

  function FirstAt(log: seq<Attempt>, s: real): (j: nat)
    ensures j <= |log|
    ensures forall i | 0 <= i < j :: log[i].at < s
    ensures j < |log| ==> log[j].at >= s
  {
    if log == [] || log[0].at >= s then 0 else 1 + FirstAt(log[1..], s)
  }

  lemma ConformingHasRoom(l: Limits, since: real, log: seq<Attempt>, now: real, level: real)
    requires Tight(l, since, log, now, level) && Conforms(l, since, log, now) && since <= now
    requires forall j | 0 <= j < |log| :: since <= log[j].at <= now
    requires forall i, j | 0 <= i < j < |log| :: log[i].at <= log[j].at
    ensures level >= 1.0 && l.burst as real >= 1.0
  {
    hide Flow, Granted, GrantedSince, Fits;
    FlowAdds(l, 0.0, 0.0);
    FitsByFlow(l, GrantedSince(log, now), now - now);
    assert GrantedSince(log, now) as real + 1.0 <= l.burst as real + Flow(l, now - now);
    if level == Room(l, since, Granted(log, 0), now) {
      GrantedBelowSince(log, since, 0);
      FitsByFlow(l, GrantedSince(log, since), now - since);
      assert GrantedSince(log, since) as real + 1.0 <= l.burst as real + Flow(l, now - since);
    } else {
      var j :| 0 <= j < |log| && level == Room(l, log[j].at, Granted(log, j), now);
      GrantedBelowSince(log, log[j].at, j);
      FitsByFlow(l, GrantedSince(log, log[j].at), now - log[j].at);
      assert GrantedSince(log, log[j].at) as real + 1.0 <= l.burst as real + Flow(l, now - log[j].at);
    }
  }

  lemma RoomyConforms(l: Limits, since: real, log: seq<Attempt>, now: real, level: real, s: real)
    requires l.rps >= 0.0 && Below(l, since, log, now, level) && level >= 1.0 && l.burst as real >= 1.0
    requires since <= s <= now
    requires forall i, j | 0 <= i < j < |log| :: log[i].at <= log[j].at
    ensures Fits(l, GrantedSince(log, s), now - s)
  {
    hide Flow, Granted, GrantedSince, Fits;
    FitsByFlow(l, GrantedSince(log, s), now - s);
    var j := FirstAt(log, s);
    GrantedSinceIndex(log, s, j);
    if j < |log| {
      FlowGrows(l, now - log[j].at, now - s);
      assert Room(l, log[j].at, Granted(log, j), now) >= level;
    } else {
      GrantedEmpty(log);
      FlowAdds(l, 0.0, 0.0);
      FlowGrows(l, 0.0, now - s);
    }
  }

  /** The bucket accepts a call if and only if the call conforms: accepting it overfills no
      window. So the rate is never exceeded, and no call is turned away without need. */
  lemma BucketExact(l: Limits, since: real, times: seq<real>, now: real)
    requires l.rps >= 0.0 && Monotone(since, times + [now])
    ensures var (b, log) := Replay(l, since, times);
            Consume(l, b, now).1 <==> Conforms(l, since, log, now)
  {
    hide Flow, Granted, GrantedSince, Tight, Below, Fits;
    var (b, log) := Replay(l, since, times);
    LevelIsLeastRoom(l, since, times, now);
    ReplayTimes(l, since, times);
    var all := times + [now];
    assert forall i | 0 <= i < |log| :: log[i].at == all[i] && since <= all[i] <= all[|times|] == now;
    assert forall i, k | 0 <= i < k < |log| :: all[i] <= all[k];
    var level := b.tokens + Flow(l, now - b.lastUpdate);
    assert Tight(l, since, log, now, level);
    assert forall j | 0 <= j < |log| :: since <= log[j].at <= now;
    assert forall i, j | 0 <= i < j < |log| :: log[i].at <= log[j].at;
    if Conforms(l, since, log, now) {
      ConformingHasRoom(l, since, log, now, level);
    }
    if Consume(l, b, now).1 {
      forall s: real | since <= s <= now
        ensures Fits(l, GrantedSince(log, s), now - s)
      {
        RoomyConforms(l, since, log, now, level, s);
      }
    }
  }
}
