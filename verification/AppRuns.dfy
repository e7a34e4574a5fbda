/**
 * App.Run as interleaved steps: the component goroutines, the error channel, the wait group, the
 * deadline and the main sequence, in every order.
 */
module AppRuns {
  import opened Common
  import opened Lifecycle

  /** A component goroutine: serving, holding its result for the channel, past the send, or done. */
  datatype Worker = Serving | Sending(result: Option<ServeError>) | Sent(result: Option<ServeError>) | Gone(result: Option<ServeError>)

  datatype Main = Selecting | Shutting(next: nat) | Waiting | Draining | Returned(allStopped: bool)

  datatype State = State(
    main: Main,
    workers: seq<Worker>,
    channel: seq<Option<ServeError>>,
    closed: bool,
    panicked: bool,                      // a send on the closed channel
    received: seq<Option<ServeError>>,   // everything taken from the channel, in order
    runErrors: seq<ServeError>,
    trace: seq<Action>,                  // the hooks, stops and cleanups performed
    answers: seq<Option<int>>,           // the error each of them gave, if any
    shutdownErrors: seq<ShutdownError>)

  datatype Move =
    | ServeReturns(i: nat, result: Option<ServeError>)
    | Send(i: nat)
    | Finish(i: nat)
    | Receive
    | Cancel
    | Shut(failure: Option<int>)
    | SeeStopped
    | Expire
    | Drain

  function Start(a: Sizes): State {
    State(Selecting, seq(a.components, i requires 0 <= i < a.components => Serving), [], false, false, [], [], [], [], [])
  }

  function SetWorker(s: State, i: nat, w: Worker): State
    requires i < |s.workers|
  {
    s.(workers := s.workers[i := w])
  }

  /** Takes the first result off the channel and keeps it if it counts as an error. */
  function Take(s: State): State
    requires s.channel != []
  {
    s.(channel := s.channel[1..],
       received := s.received + [s.channel[0]],
       runErrors := if Counts(s.channel[0]) then s.runErrors + [s.channel[0].value] else s.runErrors)
  }

  predicate AllGone(s: State) {
    forall i :: 0 <= i < |s.workers| ==> s.workers[i].Gone?
  }

  /** One step; a move that is not enabled changes nothing. The channel has room for one result per component. */
  function Apply(a: Sizes, s: State, m: Move): State {
    match m
    case ServeReturns(i, result) =>
      if i < |s.workers| && s.workers[i].Serving? then SetWorker(s, i, Sending(result)) else s
    case Send(i) =>
      if i >= |s.workers| || !s.workers[i].Sending? then s
      else if s.closed then s.(panicked := true)
      else if |s.channel| >= a.components then s
      else SetWorker(s.(channel := s.channel + [s.workers[i].result]), i, Sent(s.workers[i].result))
    case Finish(i) =>
      if i < |s.workers| && s.workers[i].Sent? then SetWorker(s, i, Gone(s.workers[i].result)) else s
    case Receive =>
      if s.main.Selecting? && s.channel != [] then Take(s).(main := Shutting(0)) else s
    case Cancel =>
      if s.main.Selecting? then s.(main := Shutting(0)) else s
    case Shut(failure) =>
      if !s.main.Shutting? then s
      else if s.main.next >= |ShutdownOrder(a)| then s.(main := Waiting)
      else
        var action := ShutdownOrder(a)[s.main.next];
        s.(main := Shutting(s.main.next + 1),
           trace := s.trace + [action],
           answers := s.answers + [failure],
           shutdownErrors := if failure.Some? then s.shutdownErrors + [Failed(action, failure.value)] else s.shutdownErrors)
    case SeeStopped =>
      if s.main.Waiting? && AllGone(s) then s.(main := Draining, closed := true) else s
    case Expire =>
      if s.main.Waiting?
      then s.(main := Returned(false), shutdownErrors := s.shutdownErrors + [WaitTimedOut])
      else s
    case Drain =>
      if !s.main.Draining? then s
      else if s.channel != [] then Take(s)
      else s.(main := Returned(true))
  }

  function Exec(a: Sizes, s: State, moves: seq<Move>): State
    decreases |moves|
  {
    if moves == [] then s else Exec(a, Apply(a, s, moves[0]), moves[1..])
  }

  // ---- the invariant -------------------------------------------------------------------------------

  /** The results of the workers that have sent theirs. */
  function SentResults(workers: seq<Worker>): multiset<Option<ServeError>> {
    if workers == [] then multiset{}
    else
      var w := workers[|workers| - 1];
      SentResults(workers[..|workers| - 1]) + Contribution(w)
  }

  function Contribution(w: Worker): multiset<Option<ServeError>> {
    if w.Sent? || w.Gone? then multiset{w.result} else multiset{}
  }

  function CountedErrors(results: seq<Option<ServeError>>): seq<ServeError> {
    if results == [] then []
    else
      var r := results[|results| - 1];
      CountedErrors(results[..|results| - 1]) + (if Counts(r) then [r.value] else [])
  }

  /** Shutting down reports every failed action in order, and after them the deadline if it ended the wait. */
  ghost predicate ErrorsReported(s: State) {
    && |s.trace| == |s.answers|
    && s.shutdownErrors == ErrorsOf(s.trace, s.answers) + (if s.main == Returned(false) then [WaitTimedOut] else [])
  }

  ghost predicate Inv(a: Sizes, s: State) {
    && ErrorsReported(s)
    && |s.workers| == a.components
    && !s.panicked
    && SentResults(s.workers) == multiset(s.received) + multiset(s.channel)
    && s.runErrors == CountedErrors(s.received)
    && (s.closed <==> s.main.Draining? || s.main == Returned(true))
    && (s.closed ==> AllGone(s))
    && (s.main == Returned(true) ==> s.channel == [])
    && (!s.closed ==> |s.received| <= 1)
    && (s.main.Selecting? ==> s.received == [])
    && s.trace == (match s.main
                   case Selecting => []
                   case Shutting(k) => if k <= |ShutdownOrder(a)| then ShutdownOrder(a)[..k] else ShutdownOrder(a)
                   case _ => ShutdownOrder(a))
    && (s.main.Shutting? ==> s.main.next <= |ShutdownOrder(a)|)
  }

  lemma {:induction false} SentAfter(workers: seq<Worker>, i: nat, w: Worker)
    requires i < |workers|
    ensures SentResults(workers[i := w]) + Contribution(workers[i]) == SentResults(workers) + Contribution(w)
  {
    hide Contribution;
    var n, after := |workers| - 1, workers[i := w];
    if i < n {
      assert after[..n] == workers[..n][i := w] && after[n] == workers[n];
      SentAfter(workers[..n], i, w);
      var a, b, c, d := SentResults(after[..n]), SentResults(workers[..n]), Contribution(workers[i]), Contribution(w);
      var last := Contribution(workers[n]);
      assert a + c == b + d;
      assert (a + last) + c == (a + c) + last == (b + d) + last == (b + last) + d;
    } else {
      assert after[..n] == workers[..n];
      var a := SentResults(workers[..n]);
      assert (a + Contribution(w)) + Contribution(workers[n]) == (a + Contribution(workers[n])) + Contribution(w);
    }
  }

  /** The workers that have sent are fewer than all, as long as one has not. */
  lemma {:induction false} SentCount(workers: seq<Worker>)
    ensures |SentResults(workers)| <= |workers|
    ensures (exists i :: 0 <= i < |workers| && (workers[i].Serving? || workers[i].Sending?))
        ==> |SentResults(workers)| < |workers|
  {
    if workers != [] {
      var before := workers[..|workers| - 1];
      SentCount(before);
      if i :| 0 <= i < |workers| - 1 && (workers[i].Serving? || workers[i].Sending?) {
        assert before[i] == workers[i];
      }
    }
  }

  lemma CountedNext(results: seq<Option<ServeError>>, r: Option<ServeError>)
    ensures CountedErrors(results + [r]) == CountedErrors(results) + (if Counts(r) then [r.value] else [])
  {
    assert (results + [r])[..|results|] == results;
  }

  lemma TakeKeeps(s: State)
    requires s.channel != [] && s.runErrors == CountedErrors(s.received)
    ensures var t := Take(s);
      && multiset(t.received) + multiset(t.channel) == multiset(s.received) + multiset(s.channel)
      && t.runErrors == CountedErrors(t.received)
  {
    CountedNext(s.received, s.channel[0]);
    assert s.channel == [s.channel[0]] + s.channel[1..];
  }

  lemma SendKeeps(a: Sizes, s: State, i: nat)
    requires Inv(a, s)
    ensures Inv(a, Apply(a, s, Send(i)))
  {
    hide SentResults, CountedErrors, ShutdownOrder, ErrorsOf, Contribution;
    if i < |s.workers| && s.workers[i].Sending? && !s.closed && |s.channel| < a.components {
      var r := s.workers[i].result;
      assert SentResults(s.workers[i := Sent(r)]) == multiset(s.received) + multiset(s.channel + [r]) by {
        SendCounted(s.workers, i);
      }
      hide AllGone;
    }
  }

  lemma SendCounted(workers: seq<Worker>, i: nat)
    requires i < |workers| && workers[i].Sending?
    ensures SentResults(workers[i := Sent(workers[i].result)]) == SentResults(workers) + multiset{workers[i].result}
  {
    hide SentResults;
    var after := workers[i := Sent(workers[i].result)];
    SentAfter(workers, i, Sent(workers[i].result));
    assert SentResults(after) + multiset{} == SentResults(after);
  }

  lemma {:induction false} SentSame(workers: seq<Worker>, i: nat, w: Worker)
    requires i < |workers| && Contribution(w) == Contribution(workers[i])
    ensures SentResults(workers[i := w]) == SentResults(workers)
  {
    hide Contribution;
    var n, after := |workers| - 1, workers[i := w];
    if i < n {
      assert after[..n] == workers[..n][i := w] && after[n] == workers[n];
      SentSame(workers[..n], i, w);
    } else {
      assert after[..n] == workers[..n];
    }
  }

  lemma ServeKeeps(a: Sizes, s: State, i: nat, result: Option<ServeError>)
    requires Inv(a, s)
    ensures Inv(a, Apply(a, s, ServeReturns(i, result)))
  {
    hide SentResults, CountedErrors, ShutdownOrder;
    if i < |s.workers| && s.workers[i].Serving? {
      SentSame(s.workers, i, Sending(result));
      assert !AllGone(s);
    }
  }

  lemma FinishKeeps(a: Sizes, s: State, i: nat)
    requires Inv(a, s)
    ensures Inv(a, Apply(a, s, Finish(i)))
  {
    hide SentResults, CountedErrors, ShutdownOrder;
    if i < |s.workers| && s.workers[i].Sent? {
      SentSame(s.workers, i, Gone(s.workers[i].result));
      assert !AllGone(s);
    }
  }

  lemma ShutKeeps(a: Sizes, s: State, failure: Option<int>)
    requires Inv(a, s)
    ensures Inv(a, Apply(a, s, Shut(failure)))
  {
    hide SentResults, CountedErrors, ShutdownOrder, AllGone, ErrorsOf;
    var order := ShutdownOrder(a);
    assert order[..|order|] == order;
    if s.main.Shutting? && s.main.next < |order| {
      assert order[..s.main.next + 1] == order[..s.main.next] + [order[s.main.next]];
      ErrorsNext(s.trace, s.answers, order[s.main.next], failure);
    }
  }

  lemma MainKeeps(a: Sizes, s: State, m: Move)
    requires Inv(a, s) && !m.ServeReturns? && !m.Finish? && !m.Send? && !m.Shut?
    ensures Inv(a, Apply(a, s, m))
  {
    hide SentResults, CountedErrors, ShutdownOrder, ErrorsOf;
    assert ShutdownOrder(a)[..0] == [];
    if (m.Receive? || m.Drain?) && s.channel != [] {
      TakeKeeps(s);
    }
  }

  lemma InvKept(a: Sizes, s: State, m: Move)
    requires Inv(a, s)
    ensures Inv(a, Apply(a, s, m))
  {
    hide *;
    match m
    case Send(i) => SendKeeps(a, s, i);
    case ServeReturns(i, result) => ServeKeeps(a, s, i, result);
    case Finish(i) => FinishKeeps(a, s, i);
    case Shut(failure) => ShutKeeps(a, s, failure);
    case _ => MainKeeps(a, s, m);
  }

  lemma {:induction false} InvAlong(a: Sizes, s: State, moves: seq<Move>)
    requires Inv(a, s)
    ensures Inv(a, Exec(a, s, moves))
    decreases |moves|
  {
    if moves != [] {
      InvKept(a, s, moves[0]);
      InvAlong(a, Apply(a, s, moves[0]), moves[1..]);
    }
  }

  lemma {:induction false} NothingSent(workers: seq<Worker>)
    requires forall i :: 0 <= i < |workers| ==> workers[i].Serving?
    ensures SentResults(workers) == multiset{}
  {
    if workers != [] {
      NothingSent(workers[..|workers| - 1]);
    }
  }

  lemma EveryRunSafe(a: Sizes, moves: seq<Move>)
    ensures Inv(a, Exec(a, Start(a), moves))
  {
    NothingSent(Start(a).workers);
    InvAlong(a, Start(a), moves);
  }

  // ---- the theorems ----------------------------------------------------------------------------------

  /** No component ever waits for room in the channel, and none sends on it after it was closed. */
  lemma SendersNeverBlock(a: Sizes, moves: seq<Move>, i: nat)
    ensures var s := Exec(a, Start(a), moves);
      && !s.panicked
      && (i < |s.workers| && s.workers[i].Sending? ==>
            !s.closed && |s.channel| < a.components && Apply(a, s, Send(i)).workers[i] == Sent(s.workers[i].result))
  {
    EveryRunSafe(a, moves);
    var s := Exec(a, Start(a), moves);
    SentCount(s.workers);
    assert |multiset(s.received) + multiset(s.channel)| == |s.received| + |s.channel|;
  }

  /** The errors among the results of all workers. */
  function ServeErrors(workers: seq<Worker>): multiset<ServeError>
    requires forall i :: 0 <= i < |workers| ==> workers[i].Gone?
  {
    if workers == [] then multiset{}
    else
      var r := workers[|workers| - 1].result;
      ServeErrors(workers[..|workers| - 1]) + (if Counts(r) then multiset{r.value} else multiset{})
  }

  lemma {:induction false} CountedIsMultiset(results: seq<Option<ServeError>>, e: ServeError)
    ensures multiset(CountedErrors(results))[e] == if e.closed then 0 else multiset(results)[Some(e)]
  {
    if results != [] {
      assert results == results[..|results| - 1] + [results[|results| - 1]];
      CountedIsMultiset(results[..|results| - 1], e);
    }
  }

  lemma {:induction false} ServeErrorsIsMultiset(workers: seq<Worker>, e: ServeError)
    requires forall i :: 0 <= i < |workers| ==> workers[i].Gone?
    ensures ServeErrors(workers)[e] == if e.closed then 0 else SentResults(workers)[Some(e)]
  {
    if workers != [] {
      ServeErrorsIsMultiset(workers[..|workers| - 1], e);
    }
  }

  /** Once every component is gone, each Serve error that counts is kept or still queued. */
  lemma ErrorsConserved(a: Sizes, moves: seq<Move>)
    requires AllGone(Exec(a, Start(a), moves))
    ensures var s := Exec(a, Start(a), moves);
      multiset(s.runErrors) + multiset(CountedErrors(s.channel)) == ServeErrors(s.workers)
  {
    EveryRunSafe(a, moves);
    var s := Exec(a, Start(a), moves);
    hide Exec, CountedErrors, ServeErrors, SentResults;
    forall e
      ensures (multiset(s.runErrors) + multiset(CountedErrors(s.channel)))[e] == ServeErrors(s.workers)[e]
    {
      CountedIsMultiset(s.received, e);
      CountedIsMultiset(s.channel, e);
      ServeErrorsIsMultiset(s.workers, e);
    }
  }

  /**
   * If Run saw every component stop, it returns exactly the Serve errors that count, each as often as it
   * occurred. If it took the deadline, whether or not they had all stopped too, it returns at most the one
   * that ended the run.
   */
  lemma RunReturnsServeErrors(a: Sizes, moves: seq<Move>)
    requires Exec(a, Start(a), moves).main.Returned?
    ensures var s := Exec(a, Start(a), moves);
      if s.main.allStopped then AllGone(s) && multiset(s.runErrors) == ServeErrors(s.workers)
      else |s.runErrors| <= 1 && |s.shutdownErrors| > 0 && s.shutdownErrors[|s.shutdownErrors| - 1] == WaitTimedOut
  {
    EveryRunSafe(a, moves);
    var s := Exec(a, Start(a), moves);
    if s.main.allStopped {
      ErrorsConserved(a, moves);
    } else {
      CountedShorter(s.received);
      TimeoutRecorded(a, Start(a), moves);
    }
  }

  /** With every component gone, Run returned all Serve errors that count exactly if it left none of them queued. */
  lemma AllErrorsReturnedExactly(a: Sizes, moves: seq<Move>)
    requires var s := Exec(a, Start(a), moves); s.main.Returned? && AllGone(s)
    ensures var s := Exec(a, Start(a), moves);
      multiset(s.runErrors) == ServeErrors(s.workers) <==> forall r :: r in s.channel ==> !Counts(r)
  {
    var s := Exec(a, Start(a), moves);
    ErrorsConserved(a, moves);
    hide Exec, ServeErrors;
    CountsNone(s.channel);
    var kept, queued, all := multiset(s.runErrors), multiset(CountedErrors(s.channel)), ServeErrors(s.workers);
    assert |kept + queued| == |kept| + |CountedErrors(s.channel)|;
    if CountedErrors(s.channel) == [] {
      assert kept + queued == kept;
    }
  }

  lemma {:induction false} CountsNone(results: seq<Option<ServeError>>)
    ensures CountedErrors(results) == [] <==> forall r :: r in results ==> !Counts(r)
  {
    if results != [] {
      var k := |results| - 1;
      assert results == results[..k] + [results[k]];
      CountsNone(results[..k]);
      assert Counts(results[k]) ==> results[k] in results;
    }
  }

  /**
   * When the deadline and the last stop are both there to select, Run may take the deadline: the only
   * component has stopped with an error that counts, and Run returns without it.
   */
  lemma DeadlineDropsServeError(e: ServeError) returns (moves: seq<Move>)
    requires Counts(Some(e))
    ensures var a := Sizes(0, 1, 0);
      && 0 < |moves| && AllGone(Exec(a, Start(a), moves[..|moves| - 1])) && moves[|moves| - 1] == Expire
      && var s := Exec(a, Start(a), moves);
         s.main.Returned? && s.workers == [Gone(Some(e))] && s.runErrors == [] && ServeErrors(s.workers) == multiset{e}
  {
    var a, all := Sizes(0, 1, 0), [Cancel, Shut(None), Shut(None), ServeReturns(0, Some(e)), Send(0), Finish(0), Expire];
    moves := all;
    var states := DeadlineStates(e);
    hide ShutdownOrder, Apply;
    AlongStates(a, states, all);
    AlongStates(a, states[..7], all[..6]);
  }

  /** The states that run goes through. */
  lemma DeadlineStates(e: ServeError) returns (states: seq<State>)
    ensures var a := Sizes(0, 1, 0);
      && |states| == 8 && states[0] == Start(a)
      && Apply(a, states[0], Cancel) == states[1] && Apply(a, states[1], Shut(None)) == states[2]
      && Apply(a, states[2], Shut(None)) == states[3] && Apply(a, states[3], ServeReturns(0, Some(e))) == states[4]
      && Apply(a, states[4], Send(0)) == states[5] && Apply(a, states[5], Finish(0)) == states[6]
      && Apply(a, states[6], Expire) == states[7]
      && AllGone(states[6]) && states[7].main == Returned(false)
      && states[7].workers == [Gone(Some(e))] && states[7].runErrors == []
  {
    var a := Sizes(0, 1, 0);
    var order := ShutdownOrder(a);
    assert |order| == 1;
    hide ShutdownOrder;
    var s0 := Start(a);
    var s1 := s0.(main := Shutting(0));
    var s2 := Apply(a, s1, Shut(None));
    var s3 := s2.(main := Waiting);
    assert Apply(a, s2, Shut(None)) == s3 && s3.workers == [Serving] && s3.channel == [] && !s3.closed && s3.runErrors == [];
    var s4, s5, s6 := LastStop(a, s3, e);
    hide Apply, AllGone;
    states := [s0, s1, s2, s3, s4, s5, s6, Apply(a, s6, Expire)];
  }

  lemma LastStop(a: Sizes, s: State, e: ServeError) returns (s1: State, s2: State, s3: State)
    requires a.components == 1 && s.main.Waiting? && s.workers == [Serving] && s.channel == [] && !s.closed
    ensures Apply(a, s, ServeReturns(0, Some(e))) == s1 && Apply(a, s1, Send(0)) == s2 && Apply(a, s2, Finish(0)) == s3
    ensures AllGone(s3) && s3.workers == [Gone(Some(e))] && s3.runErrors == s.runErrors
    ensures var last := Apply(a, s3, Expire);
      last.main == Returned(false) && last.workers == s3.workers && last.runErrors == s3.runErrors
  {
    s1 := SetWorker(s, 0, Sending(Some(e)));
    s2 := SetWorker(s1.(channel := [Some(e)]), 0, Sent(Some(e)));
    s3 := SetWorker(s2, 0, Gone(Some(e)));
  }

  lemma {:induction false} AlongStates(a: Sizes, states: seq<State>, moves: seq<Move>)
    requires |states| == |moves| + 1
    requires forall i :: 0 <= i < |moves| ==> Apply(a, states[i], moves[i]) == states[i + 1]
    ensures Exec(a, states[0], moves) == states[|moves|]
    decreases |moves|
  {
    if moves != [] {
      hide Apply;
      AlongStates(a, states[1..], moves[1..]);
    }
  }

  lemma {:induction false} CountedShorter(results: seq<Option<ServeError>>)
    ensures |CountedErrors(results)| <= |results|
  {
    if results != [] {
      CountedShorter(results[..|results| - 1]);
    }
  }

  ghost predicate TimedOut(s: State) {
    s.main == Returned(false) ==> s.shutdownErrors != [] && s.shutdownErrors[|s.shutdownErrors| - 1] == WaitTimedOut
  }

  lemma {:induction false} TimeoutRecorded(a: Sizes, s: State, moves: seq<Move>)
    requires TimedOut(s)
    ensures TimedOut(Exec(a, s, moves))
    decreases |moves|
  {
    if moves != [] {
      TimeoutRecorded(a, Apply(a, s, moves[0]), moves[1..]);
    }
  }

  /**
   * When Run returns, every hook, component and cleanup was visited exactly once and in order: hooks,
   * components as registered, cleanups reversed. While it shuts down, a prefix of that was. Each failure
   * is reported in that order, and the deadline last, exactly when it ended the wait.
   */
  lemma ShutdownInOrder(a: Sizes, moves: seq<Move>)
    ensures var s := Exec(a, Start(a), moves);
      && ErrorsReported(s)
      && s.trace <= ShutdownOrder(a)
      && (s.main.Waiting? || s.main.Draining? || s.main.Returned? ==> s.trace == ShutdownOrder(a))
  {
    EveryRunSafe(a, moves);
  }

  /** The errors reported are those of the actions that failed, in their order, and the deadline if it ended the wait. */
  lemma FailuresReported(a: Sizes, moves: seq<Move>) returns (failures: seq<ShutdownError>, at: seq<nat>)
    ensures var s := Exec(a, Start(a), moves);
      && s.shutdownErrors == failures + (if s.main == Returned(false) then [WaitTimedOut] else [])
      && |s.trace| == |s.answers| && AccountsFor(s.trace, s.answers, failures, at)
  {
    EveryRunSafe(a, moves);
    hide Exec, AccountsFor;
    var s := Exec(a, Start(a), moves);
    failures := ErrorsOf(s.trace, s.answers);
    at := ErrorsAccountedFor(s.trace, s.answers);
  }

  // ---- what the environment answered -------------------------------------------------------------------

  /** The i-th answer was given by the move at position at[i], and the positions go up. */
  ghost predicate AnsweredBy(moves: seq<Move>, answers: seq<Option<int>>, at: seq<nat>) {
    && |at| == |answers| && Increasing(at)
    && forall i :: 0 <= i < |at| ==> at[i] < |moves| && moves[at[i]] == Shut(answers[i])
  }

  /** What a component's goroutine holds is what its own Serve returned. */
  ghost predicate ServedBy(moves: seq<Move>, workers: seq<Worker>) {
    forall i: nat :: i < |workers| && !workers[i].Serving? ==> ServeReturns(i, workers[i].result) in moves
  }

  lemma ExecLast(a: Sizes, s: State, moves: seq<Move>)
    requires moves != []
    ensures Exec(a, s, moves) == Apply(a, Exec(a, s, moves[..|moves| - 1]), moves[|moves| - 1])
    decreases |moves|
  {
    hide Apply;
    if |moves| > 1 {
      assert moves[1..][..|moves| - 2] == moves[..|moves| - 1][1..];
      ExecLast(a, Apply(a, s, moves[0]), moves[1..]);
    }
  }

  /** In every run the answers of shutting down and the results of Serve are those that the environment gave. */
  lemma {:induction false} AnswersAreGiven(a: Sizes, moves: seq<Move>) returns (at: seq<nat>)
    ensures var s := Exec(a, Start(a), moves); AnsweredBy(moves, s.answers, at) && ServedBy(moves, s.workers)
    decreases |moves|
  {
    if moves == [] {
      at := [];
    } else {
      var n := |moves| - 1;
      ExecLast(a, Start(a), moves);
      at := AnswersAreGiven(a, moves[..n]);
      var s := Exec(a, Start(a), moves[..n]);
      hide Exec;
      GivenNext(a, s, moves, at);
      at := if |Apply(a, s, moves[n]).answers| > |s.answers| then at + [n] else at;
    }
  }

  lemma GivenNext(a: Sizes, s: State, moves: seq<Move>, at: seq<nat>)
    requires moves != [] && AnsweredBy(moves[..|moves| - 1], s.answers, at) && ServedBy(moves[..|moves| - 1], s.workers)
    ensures var n := |moves| - 1;
      var s' := Apply(a, s, moves[n]);
      && AnsweredBy(moves, s'.answers, if |s'.answers| > |s.answers| then at + [n] else at)
      && ServedBy(moves, s'.workers)
  {
    var n := |moves| - 1;
    var s' := Apply(a, s, moves[n]);
    MoveGives(a, s, moves[n]);
    hide *;
    AnsweredNext(moves, s.answers, s'.answers, at);
    ServedNext(moves, s.workers, s'.workers);
  }

  lemma AnsweredNext(moves: seq<Move>, answers: seq<Option<int>>, more: seq<Option<int>>, at: seq<nat>)
    requires moves != [] && AnsweredBy(moves[..|moves| - 1], answers, at)
    requires more == answers || exists f :: moves[|moves| - 1] == Shut(f) && more == answers + [f]
    ensures AnsweredBy(moves, more, if |more| > |answers| then at + [|moves| - 1] else at)
  {
    assert forall i :: 0 <= i < |moves| - 1 ==> moves[..|moves| - 1][i] == moves[i];
  }

  lemma ServedNext(moves: seq<Move>, workers: seq<Worker>, after: seq<Worker>)
    requires moves != [] && ServedBy(moves[..|moves| - 1], workers) && |after| == |workers|
    requires forall i: nat :: i < |workers| && !after[i].Serving? ==>
      moves[|moves| - 1] == ServeReturns(i, after[i].result) || (!workers[i].Serving? && workers[i].result == after[i].result)
    ensures ServedBy(moves, after)
  {
    assert moves == moves[..|moves| - 1] + [moves[|moves| - 1]];
  }

  /** One move gives at most one answer or one result, its own. */
  lemma MoveGives(a: Sizes, s: State, m: Move)
    ensures var s' := Apply(a, s, m);
      && (s'.answers == s.answers || exists f :: m == Shut(f) && s'.answers == s.answers + [f])
      && |s'.workers| == |s.workers|
      && forall i: nat :: i < |s.workers| && !s'.workers[i].Serving? ==>
           m == ServeReturns(i, s'.workers[i].result) || (!s.workers[i].Serving? && s.workers[i].result == s'.workers[i].result)
  {
    hide ShutdownOrder, Counts;
  }

  // ---- the main sequence ends ------------------------------------------------------------------------

  /** A step of Run itself, not of a component. */
  predicate IsMain(m: Move) {
    !m.ServeReturns? && !m.Send? && !m.Finish?
  }

  /** At most so many steps are left to Run. */
  function StepsLeft(a: Sizes, s: State): int {
    match s.main
    case Selecting => |ShutdownOrder(a)| + a.components + 4
    case Shutting(k) => |ShutdownOrder(a)| - k + a.components + 3
    case Waiting => a.components + 2
    case Draining => |s.channel| + 1
    case Returned(_) => 0
  }

  lemma WithinBounds(a: Sizes, s: State)
    requires Inv(a, s)
    ensures |s.channel| <= a.components
    ensures s.main.Shutting? ==> s.main.next <= |ShutdownOrder(a)|
    ensures (s.main.Draining? ==> AllGone(s)) && 0 <= StepsLeft(a, s)
  {
    SentCount(s.workers);
    hide SentResults, ShutdownOrder, ErrorsReported, CountedErrors;
    assert |multiset(s.received) + multiset(s.channel)| == |s.received| + |s.channel|;
  }

  /** Each step of Run brings its return nearer, and no component ever delays it. */
  lemma StepsRunOut(a: Sizes, s: State, m: Move)
    requires Inv(a, s)
    ensures var s' := Apply(a, s, m);
      && 0 <= StepsLeft(a, s')
      && if IsMain(m) && s' != s then StepsLeft(a, s') < StepsLeft(a, s) else StepsLeft(a, s') == StepsLeft(a, s)
  {
    hide *;
    WithinBounds(a, s);
    if !IsMain(m) {
      ComponentsWait(a, s, m);
    } else if Apply(a, s, m) != s {
      MainStep(a, s, m);
    }
  }

  lemma MainStep(a: Sizes, s: State, m: Move)
    requires IsMain(m) && Apply(a, s, m) != s && |s.channel| <= a.components
    requires s.main.Shutting? ==> s.main.next <= |ShutdownOrder(a)|
    ensures 0 <= StepsLeft(a, Apply(a, s, m)) < StepsLeft(a, s)
  {
    hide ShutdownOrder;
  }

  lemma ComponentsWait(a: Sizes, s: State, m: Move)
    requires !IsMain(m) && (s.main.Draining? ==> AllGone(s))
    ensures StepsLeft(a, Apply(a, s, m)) == StepsLeft(a, s)
  {
  }

  /**
   * Every step of Run brings its return nearer. Once shutdown has begun one is always possible until Run has
   * returned, and before that one is possible whenever a component's result is queued.
   */
  lemma MainNeverStuck(a: Sizes, moves: seq<Move>)
    ensures var s := Exec(a, Start(a), moves);
      && (forall m :: IsMain(m) && Apply(a, s, m) != s ==> 0 <= StepsLeft(a, Apply(a, s, m)) < StepsLeft(a, s))
      && (forall m :: !IsMain(m) ==> StepsLeft(a, Apply(a, s, m)) == StepsLeft(a, s))
      && (!s.main.Selecting? && !s.main.Returned? ==>
            exists m :: (m == Shut(None) || m == Expire || m == Drain) && Apply(a, s, m) != s)
      && (s.main.Selecting? && s.channel != [] ==> Apply(a, s, Receive) != s)
  {
    EveryRunSafe(a, moves);
    var s := Exec(a, Start(a), moves);
    forall m
      ensures IsMain(m) && Apply(a, s, m) != s ==> 0 <= StepsLeft(a, Apply(a, s, m)) < StepsLeft(a, s)
      ensures !IsMain(m) ==> StepsLeft(a, Apply(a, s, m)) == StepsLeft(a, s)
    {
      hide *;
      StepsRunOut(a, s, m);
    }
    SomeStep(a, s);
  }

  lemma SomeStep(a: Sizes, s: State)
    ensures !s.main.Selecting? && !s.main.Returned? ==>
      exists m :: (m == Shut(None) || m == Expire || m == Drain) && Apply(a, s, m) != s
    ensures s.main.Selecting? && s.channel != [] ==> Apply(a, s, Receive).main != s.main
  {
    match s.main
    case Shutting(_) =>
      assert Apply(a, s, Shut(None)).main != s.main;
    case Waiting =>
      assert Apply(a, s, Expire).main != s.main;
    case Draining =>
      assert Apply(a, s, Drain) != s by {
        if s.channel != [] {
          assert |Apply(a, s, Drain).channel| < |s.channel|;
        }
      }
    case _ =>
  }

  /** The steps of Run among the moves, those that change anything. */
  function MainSteps(a: Sizes, s: State, moves: seq<Move>): nat
    decreases |moves|
  {
    if moves == [] then 0
    else
      var next := Apply(a, s, moves[0]);
      (if IsMain(moves[0]) && next != s then 1 else 0) + MainSteps(a, next, moves[1..])
  }

  lemma {:induction false} MainStepsWithin(a: Sizes, s: State, moves: seq<Move>)
    requires Inv(a, s)
    ensures MainSteps(a, s, moves) + StepsLeft(a, Exec(a, s, moves)) <= StepsLeft(a, s)
    decreases |moves|
  {
    if moves != [] {
      hide Apply, StepsLeft, Inv;
      StepsRunOut(a, s, moves[0]);
      InvKept(a, s, moves[0]);
      MainStepsWithin(a, Apply(a, s, moves[0]), moves[1..]);
    }
  }

  /** However the components behave, Run takes no more than these many steps: one per action, one per queued result, and four. */
  lemma RunIsBounded(a: Sizes, moves: seq<Move>)
    ensures MainSteps(a, Start(a), moves) <= |ShutdownOrder(a)| + a.components + 4
  {
    EveryRunSafe(a, []);
    EveryRunSafe(a, moves);
    MainStepsWithin(a, Start(a), moves);
    WithinBounds(a, Exec(a, Start(a), moves));
  }
}
