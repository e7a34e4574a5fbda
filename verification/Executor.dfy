/**
 * The policy executor: limiter, breaker, semaphore and retry loop composed in Do.
 *
 * The class runs one call from start to end. ExecutorRuns lets any number of calls interleave, each
 * lock-protected access being one atomic step, and proves what every reachable state keeps.
 */
module Executor {
  import opened Common
  import TB = TokenBucket
  import CB = CircuitBreaker
  import opened Retry

  datatype Options = Options(
    attempts: int,
    backoff: real,
    requests: int,
    per: real,
    burst: int,
    failures: int,
    openFor: real,
    concurrencyLimit: int)

  function Normalize(o: Options): Options {
    var o1 := if o.attempts <= 0 then o.(attempts := 1) else o;
    if o1.requests > 0 && o1.burst <= 0 then o1.(burst := o1.requests) else o1
  }

  /** What the calls of one executor share. */
  datatype Shared = Shared(bucket: Option<TB.Bucket>, breaker: Option<CB.Breaker>, held: nat)

  /** What stays fixed; a limit of zero means that there is no semaphore. */
  datatype Config = Config(attempts: nat, backoff: real, limit: nat)

  datatype Verdict = RateLimited | CircuitOpen | ConcurrencyLimited | Completed(err: Option<CallError>)

  function ConfigOf(o: Options): Config {
    var n := Normalize(o);
    Config(n.attempts, n.backoff, if n.concurrencyLimit > 0 then n.concurrencyLimit else 0)
  }

  function Initial(o: Options, now: real): Shared {
    var n := Normalize(o);
    Shared(if n.requests > 0 && n.per > 0.0 then Some(TB.Full(n.requests, n.per, n.burst, now)) else None,
           if n.failures > 0 && n.openFor > 0.0 then Some(CB.New(n.failures, n.openFor)) else None,
           0)
  }

  function OutcomeOf(err: Option<CallError>, now: real): CB.Outcome {
    if err.None? then CB.Success else CB.Failure(now)
  }

  /** One uninterrupted call; the clock shows t1 at the limiter, t2 at the breaker, t3 at the report. */
  function DoSpec(cfg: Config, sh: Shared, t1: real, t2: real, t3: real, w: World): (Shared, Verdict)
    requires cfg.attempts > 0
  {
    var sh1 := if sh.bucket.Some? then sh.(bucket := Some(TB.Take(sh.bucket.value, t1).0)) else sh;
    if sh.bucket.Some? && !TB.Take(sh.bucket.value, t1).1 then (sh1, RateLimited)
    else if sh.breaker.Some? && CB.IsOpen(sh.breaker.value, t2) then (sh1, CircuitOpen)
    else if cfg.limit > 0 && sh.held >= cfg.limit then (sh1, ConcurrencyLimited)
    else
      var err := Attempts(w, cfg.attempts, cfg.backoff, 0).0;
      (Reported(sh1, err, t3), Completed(err))
  }

  function Reported(sh: Shared, err: Option<CallError>, now: real): Shared {
    if sh.breaker.Some? then sh.(breaker := Some(CB.Report(sh.breaker.value, OutcomeOf(err, now)))) else sh
  }

  class Executor {
    const opts: Options
    const limiter: TB.RateLimiter?
    const breaker: CB.CircuitState?
    var held: nat

    constructor (options: Options, now: real)
      ensures (limiter != null ==> fresh(limiter)) && (breaker != null ==> fresh(breaker))
      ensures opts == Normalize(options) && View() == Initial(options, now)
    {
      var n := Normalize(options);
      opts := n;
      held := 0;
      if n.requests > 0 && n.per > 0.0 {
        limiter := new TB.RateLimiter(n.requests, n.per, n.burst, now);
      } else {
        limiter := null;
      }
      if n.failures > 0 && n.openFor > 0.0 {
        breaker := new CB.CircuitState(n.failures, n.openFor);
      } else {
        breaker := null;
      }
    }

    ghost function View(): Shared
      reads this, limiter, breaker
    {
      Shared(if limiter == null then None else Some(limiter.View()),
             if breaker == null then None else Some(breaker.View()),
             held)
    }

    method Do(t1: real, t2: real, t3: real, w: World) returns (verdict: Verdict)
      requires opts == Normalize(opts)
      modifies this, limiter, breaker
      ensures (View(), verdict) == DoSpec(ConfigOf(opts), old(View()), t1, t2, t3, w)
    {
      if limiter != null {
        var ok := limiter.Allow(t1);
        if !ok {
          return RateLimited;
        }
      }
      if breaker != null {
        var open := breaker.Open(t2);
        if open {
          return CircuitOpen;
        }
      }
      if opts.concurrencyLimit > 0 {
        if held >= opts.concurrencyLimit {
          return ConcurrencyLimited;
        }
        held := held + 1;
      }
      var err, calls := RunAttempts(w, opts.attempts, opts.backoff);
      MeaningIsUnique(w, opts.attempts, opts.backoff, err, calls,
                      Attempts(w, opts.attempts, opts.backoff, 0).0, Attempts(w, opts.attempts, opts.backoff, 0).1);
      if breaker != null {
        if err.None? {
          breaker.Succeed();
        } else {
          breaker.Fail(t3);
        }
      }
      if opts.concurrencyLimit > 0 {
        held := held - 1;
      }
      return Completed(err);
    }
  }

  /** Whatever options a caller passes, the executor makes at least one attempt, and a limiter admits its first call. */
  lemma NormalizedOptions(o: Options, start: real, now: real)
    ensures Normalize(Normalize(o)) == Normalize(o) && ConfigOf(o).attempts > 0
    ensures Initial(o, start).bucket.Some? && now >= start
        ==> TB.Take(Initial(o, start).bucket.value, now).1
  {
    var n := Normalize(o);
    if n.requests > 0 && n.per > 0.0 && now >= start {
      TB.EarnedForward(n.requests as real / n.per, now - start);
    }
  }
}
