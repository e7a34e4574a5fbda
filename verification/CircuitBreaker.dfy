/**
 * The circuit breaker of the runtime policy executor.
 *
 * The state keeps only a counter and a deadline. The theorems say what that state means in terms
 * of the whole history of reported outcomes, in whatever order and at whatever times they came.
 */
module CircuitBreaker {
  import opened Common

  /** openUntil is None for the zero time, which no clock reading precedes. */
  datatype Breaker = Breaker(failures: nat, openFor: real, consecutive: nat, openUntil: Option<real>)

  datatype Outcome = Success | Failure(at: real)

  function New(failures: nat, openFor: real): Breaker {
    Breaker(failures, openFor, 0, None)
  }

  predicate IsOpen(b: Breaker, now: real) {
    b.openUntil.Some? && now < b.openUntil.value
  }

  predicate TripsOn(b: Breaker, o: Outcome) {
    o.Failure? && b.consecutive + 1 >= b.failures
  }

  function Report(b: Breaker, o: Outcome): Breaker {
    match o
    case Success => b.(consecutive := 0, openUntil := None)
    case Failure(at) =>
      if TripsOn(b, o) then b.(consecutive := 0, openUntil := Some(at + b.openFor))
      else b.(consecutive := b.consecutive + 1)
  }

  class CircuitState {
    const failures: nat
    const openFor: real
    var consecutive: nat
    var openUntil: Option<real>

    constructor (failures: nat, openFor: real)
      requires failures > 0
      ensures View() == New(failures, openFor)
    {
      this.failures := failures;
      this.openFor := openFor;
      this.consecutive := 0;
      this.openUntil := None;
    }

    function View(): Breaker
      reads this
    {
      Breaker(failures, openFor, consecutive, openUntil)
    }

    method Open(now: real) returns (open: bool)
      ensures open == IsOpen(View(), now)
    {
      return openUntil.Some? && now < openUntil.value;
    }

    method Succeed()
      modifies this
      ensures View() == Report(old(View()), Success)
    {
      consecutive := 0;
      openUntil := None;
    }

    method Fail(now: real)
      modifies this
      ensures View() == Report(old(View()), Failure(now))
    {
      consecutive := consecutive + 1;
      if consecutive >= failures {
        openUntil := Some(now + openFor);
        consecutive := 0;
      }
    }
  }

  // ---- whole histories --------------------------------------------------------------------

  function Replay(b: Breaker, log: seq<Outcome>): Breaker {
    if log == [] then b else Report(Replay(b, log[..|log| - 1]), log[|log| - 1])
  }

  /** The times of the failures reported since the last success. */
  function Streak(log: seq<Outcome>): seq<real> {
    if log == [] || log[|log| - 1].Success? then []
    else Streak(log[..|log| - 1]) + [log[|log| - 1].at]
  }

  function TotalFailures(log: seq<Outcome>): nat {
    if log == [] then 0
    else TotalFailures(log[..|log| - 1]) + (if log[|log| - 1].Failure? then 1 else 0)
  }

  /** How often the breaker opened, or had its deadline moved, while it replayed the log. */
  function Trips(b: Breaker, log: seq<Outcome>): nat {
    if log == [] then 0
    else Trips(b, log[..|log| - 1])
         + (if TripsOn(Replay(b, log[..|log| - 1]), log[|log| - 1]) then 1 else 0)
  }

  /** The deadline a streak of failures leaves: set by its last failure whose rank divides evenly. */
  function Deadline(failures: nat, openFor: real, streak: seq<real>): Option<real>
    requires failures > 0
  {
    if |streak| < failures then None
    else
      LastMultiple(|streak|, failures);
      Some(streak[|streak| / failures * failures - 1] + openFor)
  }

  lemma LastMultiple(n: nat, f: nat)
    requires 0 < f <= n
    ensures 0 < n / f * f <= n
  {
    assert n == n / f * f + n % f;
  }

  /** Counting one more failure: either the remainder grows, or it wraps and the quotient grows. */
  lemma NextRemainder(n: nat, f: nat)
    requires 0 < f
    ensures n % f + 1 < f ==> (n + 1) / f == n / f && (n + 1) % f == n % f + 1
    ensures n % f + 1 >= f ==> (n + 1) / f * f == n + 1 && (n + 1) % f == 0
  {
    assert n == n / f * f + n % f;
    if n % f + 1 < f {
      DivModUnique(n + 1, f, n / f, n % f + 1);
    } else {
      assert (n / f + 1) * f == n / f * f + f;
      DivModUnique(n + 1, f, n / f + 1, 0);
    }
  }

  /**
   * The breaker refines its history: the counter is the length of the failure streak modulo the
   * threshold, and the deadline is the one its last complete group of failures set.
   */
  lemma {:induction false} RefinesHistory(failures: nat, openFor: real, log: seq<Outcome>)
    requires failures > 0
    ensures var streak := Streak(log);
            Replay(New(failures, openFor), log)
            == Breaker(failures, openFor, |streak| % failures, Deadline(failures, openFor, streak))
  {
    if log != [] {
      var before, o := log[..|log| - 1], log[|log| - 1];
      RefinesHistory(failures, openFor, before);
      var n := |Streak(before)|;
      if o.Failure? {
        NextRemainder(n, failures);
        if n >= failures {
          LastMultiple(n, failures);
        }
        if n + 1 >= failures {
          LastMultiple(n + 1, failures);
        }
        StreakGrows(failures, n);
      }
    }
  }

  lemma StreakGrows(f: nat, n: nat)
    requires f > 0
    ensures n < f <= n + 1 ==> n % f + 1 >= f
    ensures n >= f && n % f + 1 < f ==> n / f * f <= n
    ensures n < f ==> n % f == n
  {
    if n < f {
      DivModUnique(n, f, 0, n);
    }
    assert n == n / f * f + n % f;
  }

  /** When the breaker rejects, in terms of the history alone. */
  lemma OpenExactly(failures: nat, openFor: real, log: seq<Outcome>, now: real)
    requires failures > 0
    ensures IsOpen(Replay(New(failures, openFor), log), now)
       <==> |Streak(log)| >= failures && now < Deadline(failures, openFor, Streak(log)).value
  {
    RefinesHistory(failures, openFor, log);
  }

  /** Every opening is paid for by a full threshold of failures of its own. */
  lemma {:induction false} TripsArePaidFor(failures: nat, openFor: real, log: seq<Outcome>)
    requires failures > 0
    ensures var b := New(failures, openFor);
            && Trips(b, log) * failures + Replay(b, log).consecutive <= TotalFailures(log)
            && Replay(b, log).consecutive < failures == Replay(b, log).failures
  {
    if log != [] {
      TripsArePaidFor(failures, openFor, log[..|log| - 1]);
      var trips := Trips(New(failures, openFor), log[..|log| - 1]);
      assert (trips + 1) * failures == trips * failures + failures;
    }
  }
}
