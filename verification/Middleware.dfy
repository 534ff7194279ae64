/** The rate limiter, the circuit breaker and the middleware as objects updated in place. */
module Middleware {
  import R = RateLimit
  import C = CircuitBreaker
  import opened Admission

  class TokenBucket {
    const limits: R.Limits
    var tokens: real
    var lastUpdate: real

    constructor (limits: R.Limits, now: real)
      ensures this.limits == limits && Value() == R.Opened(limits, now)
    {
      this.limits := limits;
      tokens, lastUpdate := limits.burst as real, now;
    }

    function Value(): R.Bucket
      reads this
    {
      R.Bucket(tokens, lastUpdate)
    }

    method Consume(now: real) returns (accepted: bool)
      modifies this
      ensures (Value(), accepted) == R.Consume(limits, old(Value()), now)
    {
      var elapsed := now - lastUpdate;
      lastUpdate := now;
      var level := tokens + elapsed * limits.rps;
      tokens := if level < limits.burst as real then level else limits.burst as real;
      assert tokens == R.Refilled(limits, old(Value()), now);
      if tokens >= 1.0 {
        tokens := tokens - 1.0;
        return true;
      }
      return false;
    }
  }

  class RateLimiter {
    const limits: R.Limits
    var buckets: map<Caller, TokenBucket>

    /** Each caller has a bucket object of its own. */
    ghost predicate Valid()
      reads this
    {
      && (forall k | k in buckets :: buckets[k].limits == limits)
      && (forall j, k | j in buckets && k in buckets && j != k :: buckets[j] != buckets[k])
    }

    ghost function Value(): Buckets
      reads this, buckets.Values
    {
      map k | k in buckets :: buckets[k].Value()
    }

    constructor (limits: R.Limits)
      ensures Valid() && this.limits == limits && buckets == map[] && Value() == map[]
    {
      this.limits := limits;
      buckets := map[];
    }

    method IsAllowed(caller: Caller, now: real) returns (accepted: bool)
      requires Valid()
      modifies this, buckets.Values
      ensures Valid() && fresh(buckets.Values - old(buckets.Values))
      ensures (Value(), accepted) == Limit(limits, old(Value()), caller, now)
    {
      ghost var before := Value();
      var bucket := BucketFor(caller, now);
      ghost var middle := Value();
      ghost var b := if caller in before then before[caller] else R.Opened(limits, now);
      assert bucket.Value() == middle[caller] == b;
      accepted := bucket.Consume(now);
      assert Value() == middle[caller := bucket.Value()];
      assert middle[caller := bucket.Value()] == before[caller := bucket.Value()];
      assert (bucket.Value(), accepted) == R.Consume(limits, b, now);
    }

    /** The caller's bucket, opened now if it has none. */
    method BucketFor(caller: Caller, now: real) returns (bucket: TokenBucket)
      requires Valid()
      modifies this
      ensures Valid() && fresh(buckets.Values - old(buckets.Values))
      ensures caller in buckets && buckets[caller] == bucket
      ensures Value() == if caller in old(buckets) then old(Value())
                         else old(Value())[caller := R.Opened(limits, now)]
    {
      if caller !in buckets {
        ghost var before := Value();
        var newBucket := new TokenBucket(limits, now);
        buckets := buckets[caller := newBucket];
        assert forall k | k in before :: buckets[k].Value() == before[k];
        assert Value() == before[caller := R.Opened(limits, now)];
      }
      bucket := buckets[caller];
    }
  }

  class CircuitBreaker {
    const settings: C.Settings
    var phase: C.Phase
    var failures: nat
    var lastStateChange: real

    constructor (settings: C.Settings, now: real)
      ensures this.settings == settings && Value() == C.Fresh(now)
    {
      this.settings := settings;
      phase, failures, lastStateChange := C.CLOSED, 0, now;
    }

    function Value(): C.Breaker
      reads this
    {
      C.Breaker(phase, failures, lastStateChange)
    }

    method RecordSuccess(ghost now: real)
      modifies this
      ensures Value() == C.AfterCall(settings, old(Value()), C.Success(now))
    {
      failures := 0;
      phase := C.CLOSED;
    }

    method RecordFailure(now: real)
      modifies this
      ensures Value() == C.AfterCall(settings, old(Value()), C.Failure(now))
    {
      failures := failures + 1;
      if failures >= settings.failureThreshold {
        phase := C.OPEN;
        lastStateChange := now;
      }
    }

    method AllowRequest(now: real) returns (allowed: bool)
      modifies this
      ensures allowed == C.Allows(settings, old(Value()), now)
      ensures Value() == C.AfterCall(settings, old(Value()), C.Ask(now))
    {
      if phase == C.OPEN {
        if now - lastStateChange > settings.recoveryTimeout {
          phase := C.HALF_OPEN;
          lastStateChange := now;
          return true;
        }
        return false;
      }
      return true;
    }
  }

  /** The wrapper around every tool, with the tool's run between `Admit` and `Finish`. */
  class ToolMiddleware {
    const cfg: Config
    const breaker: CircuitBreaker
    const limiter: RateLimiter
    var running: set<nat>
    var nextTicket: nat

    ghost predicate Valid()
      reads this, limiter
    {
      && limiter.Valid() && limiter.limits == cfg.limits && breaker.settings == cfg.settings
    }

    ghost function Value(): State
      reads this, breaker, limiter, limiter.buckets.Values
    {
      State(breaker.Value(), limiter.Value(), running, nextTicket)
    }

    constructor (cfg: Config, now: real)
      ensures Valid() && this.cfg == cfg && Value() == Run(cfg, now, []).0
      ensures fresh(breaker) && fresh(limiter) && limiter.buckets == map[]
    {
      this.cfg := cfg;
      breaker := new CircuitBreaker(cfg.settings, now);
      limiter := new RateLimiter(cfg.limits);
      running, nextTicket := {}, 0;
    }

    method Admit(caller: Caller, now: real) returns (decision: Decision)
      requires Valid()
      modifies this, breaker, limiter, limiter.buckets.Values
      ensures Valid() && fresh(limiter.buckets.Values - old(limiter.buckets.Values))
      ensures (Value(), decision) == Step(cfg, old(Value()), Event.Admit(caller, now))
    {
      hide R.Refilled, R.Flow, R.Consume, R.Opened, Limit;
      if cfg.breakerEnabled {
        var allowed := breaker.AllowRequest(now);
        if !allowed {
          return BreakerOpen;
        }
      }
      if cfg.limiterEnabled {
        var accepted := limiter.IsAllowed(caller, now);
        if !accepted {
          return RateLimited;
        }
      }
      decision := Started(nextTicket);
      running := running + {nextTicket};
      nextTicket := nextTicket + 1;
    }

    /** The tool returned (`ok`) or raised; its outcome is recorded. */
    method Finish(ticket: nat, ok: bool, now: real) returns (decision: Decision)
      requires Valid()
      modifies this, breaker
      ensures Valid()
      ensures (Value(), decision) == Step(cfg, old(Value()), Event.Finish(ticket, ok, now))
    {
      if ticket !in running {
        return NotRunning;
      }
      running := running - {ticket};
      if cfg.breakerEnabled {
        if ok {
          breaker.RecordSuccess(now);
        } else {
          breaker.RecordFailure(now);
        }
      }
      return Recorded;
    }
  }
}
