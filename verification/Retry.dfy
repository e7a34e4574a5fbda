/**
 * The retry loop at the heart of Executor.Do: which errors are retried, and what the loop's
 * result means in terms of what the wrapped function and the backoff waits did.
 */
module Retry {
  import opened Common

  const UNKNOWN := 2
  const DEADLINE_EXCEEDED := 4
  const RESOURCE_EXHAUSTED := 8
  const ABORTED := 10
  const INTERNAL := 13
  const UNAVAILABLE := 14
  const INTERNAL_SERVER_ERROR := 500

  /** An error, as the answers it gives to errors.Is, errors.As and the gRPC code query. */
  datatype CallError = CallError(
    rateLimited: bool,
    circuitOpen: bool,
    concurrencyLimited: bool,
    canceled: bool,
    deadlineExceeded: bool,
    responseStatus: Option<int>,
    code: int,
    id: int)

  predicate ShouldRetry(e: CallError) {
    if e.rateLimited || e.circuitOpen || e.concurrencyLimited || e.canceled then false
    else if e.deadlineExceeded then true
    else if e.responseStatus.Some? then e.responseStatus.value >= INTERNAL_SERVER_ERROR
    else e.code in {UNAVAILABLE, DEADLINE_EXCEEDED, RESOURCE_EXHAUSTED, ABORTED, INTERNAL, UNKNOWN}
  }

  /**
   * Which errors are worth another attempt. The executor's own rejections and a cancellation are not, whatever
   * else they are; a deadline is; the status of an HTTP response decides before any gRPC code; and of the gRPC
   * codes exactly Unknown, DeadlineExceeded, ResourceExhausted, Aborted, Internal and Unavailable are.
   */
  lemma RetriedExactly(e: CallError)
    ensures e.rateLimited || e.circuitOpen || e.concurrencyLimited || e.canceled ==> !ShouldRetry(e)
    ensures ShouldRetry(e.(rateLimited := false, circuitOpen := false, concurrencyLimited := false, canceled := false,
                           deadlineExceeded := true))
    ensures forall status, code ::
      ShouldRetry(CallError(false, false, false, false, false, Some(status), code, e.id)) <==> 500 <= status
    ensures forall code ::
      ShouldRetry(CallError(false, false, false, false, false, None, code, e.id)) <==> code in {2, 4, 8, 10, 13, 14}
  {
  }

  /**
   * What one call of Do meets: the result of each attempt of the wrapped function, and for the wait
   * after each attempt, the context's error if it was cancelled first.
   */
  datatype World = World(result: nat -> Option<CallError>, cancelled: nat -> Option<CallError>)

  /** The backoff wait after attempt i; a wait of no length never looks at the context. */
  function Slept(w: World, backoff: real, i: nat): Option<CallError> {
    if backoff <= 0.0 then None else w.cancelled(i)
  }

  /** Attempt i failed, but in a way after which the loop goes on. */
  predicate GoesOn(w: World, backoff: real, i: nat) {
    w.result(i).Some? && ShouldRetry(w.result(i).value) && Slept(w, backoff, i).None?
  }

  predicate Reaches(w: World, backoff: real, j: nat) {
    forall i :: 0 <= i < j ==> GoesOn(w, backoff, i)
  }

  /** The loop returned err after calls calls of the function. */
  ghost predicate Means(w: World, attempts: nat, backoff: real, err: Option<CallError>, calls: nat) {
    && 1 <= calls <= attempts
    && Reaches(w, backoff, calls - 1)
    && match w.result(calls - 1)
       case None => err == None
       case Some(e) =>
         if calls == attempts || !ShouldRetry(e) then err == Some(e)
         else err == Slept(w, backoff, calls - 1) && err.Some?
  }

  method RunAttempts(w: World, attempts: nat, backoff: real) returns (err: Option<CallError>, calls: nat)
    requires attempts > 0
    ensures Means(w, attempts, backoff, err, calls)
  {
    err, calls := None, 0;
    for attempt := 0 to attempts
      invariant calls == attempt < attempts
      invariant Reaches(w, backoff, attempt)
    {
      err := w.result(attempt);
      calls := calls + 1;
      if err.None? || attempt == attempts - 1 || !ShouldRetry(err.value) {
        break;
      }
      var slept := Slept(w, backoff, attempt);
      if slept.Some? {
        err := slept;
        break;
      }
    }
  }

  /** The loop from attempt i on, as a value. */
  function Attempts(w: World, attempts: nat, backoff: real, i: nat): (r: (Option<CallError>, nat))
    requires i < attempts
    ensures Reaches(w, backoff, i) ==> Means(w, attempts, backoff, r.0, r.1)
    decreases attempts - i
  {
    match w.result(i)
    case None => (None, i + 1)
    case Some(e) =>
      if i == attempts - 1 || !ShouldRetry(e) then (Some(e), i + 1)
      else if Slept(w, backoff, i).Some? then (Slept(w, backoff, i), i + 1)
      else Attempts(w, attempts, backoff, i + 1)
  }

  /** The meaning fixes the outcome: no two results of the loop fit one world. */
  lemma MeaningIsUnique(w: World, attempts: nat, backoff: real, e1: Option<CallError>, c1: nat,
                        e2: Option<CallError>, c2: nat)
    requires Means(w, attempts, backoff, e1, c1) && Means(w, attempts, backoff, e2, c2)
    ensures e1 == e2 && c1 == c2
  {
    var on1, on2 := GoesOn(w, backoff, c1 - 1), GoesOn(w, backoff, c2 - 1);
  }

  /**
   * Success means exactly that some attempt within the budget succeeds and every earlier one failed
   * retryably without its wait being cancelled; the function was then called once per attempt.
   */
  lemma SucceedsExactly(w: World, attempts: nat, backoff: real, err: Option<CallError>, calls: nat)
    requires Means(w, attempts, backoff, err, calls)
    ensures err == None
       <==> exists j :: 0 <= j < attempts && w.result(j) == None && Reaches(w, backoff, j)
    ensures forall j :: 0 <= j < attempts && w.result(j) == None && Reaches(w, backoff, j) ==> calls == j + 1
  {
    forall j | 0 <= j < attempts && w.result(j) == None && Reaches(w, backoff, j)
      ensures calls == j + 1 && err == None
    {
      var on1, on2 := GoesOn(w, backoff, j), GoesOn(w, backoff, calls - 1);
    }
    if err == None {
      assert w.result(calls - 1) == None;
    }
  }
}
