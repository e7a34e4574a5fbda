/**
 * The application lifecycle: components served by one goroutine each, a first exit or cancellation,
 * an ordered shutdown, and a wait bounded by a deadline.
 */
module Lifecycle {
  import opened Common

  /** An error of Serve; closed marks those that errors.Is takes for http.ErrServerClosed. */
  datatype ServeError = ServeError(closed: bool, id: int)

  predicate Counts(result: Option<ServeError>) {
    result.Some? && !result.value.closed
  }

  /** One thing that shutdown does. */
  datatype Action = BeforeHook(i: nat) | StopComponent(i: nat) | Cleanup(i: nat)

  datatype ShutdownError = Failed(action: Action, id: int) | WaitTimedOut

  class App {
    var components: seq<string>
    var beforeShutdown: seq<int>
    var cleanups: seq<int>

    constructor ()
      ensures components == [] && beforeShutdown == [] && cleanups == []
    {
      components, beforeShutdown, cleanups := [], [], [];
    }

    method AddCleanup(hook: int)
      modifies this
      ensures cleanups == old(cleanups) + [hook]
      ensures components == old(components) && beforeShutdown == old(beforeShutdown)
    {
      cleanups := cleanups + [hook];
    }

    method AddBeforeShutdown(hook: int)
      modifies this
      ensures beforeShutdown == old(beforeShutdown) + [hook]
      ensures components == old(components) && cleanups == old(cleanups)
    {
      beforeShutdown := beforeShutdown + [hook];
    }

    method AddComponent(name: string)
      modifies this
      ensures components == old(components) + [name]
      ensures beforeShutdown == old(beforeShutdown) && cleanups == old(cleanups)
    {
      components := components + [name];
    }

    function Registered(): Sizes
      reads this
    {
      Sizes(|beforeShutdown|, |components|, |cleanups|)
    }

    /** The shutdown sequence; outcome is what each hook and component answers. */
    method Shutdown(outcome: Action -> Option<int>) returns (errors: seq<ShutdownError>, ghost trace: seq<Action>)
      ensures trace == ShutdownOrder(Registered()) && errors == Reported(ShutdownOrder(Registered()), outcome)
    {
      errors, trace := [], [];
      ghost var a := Registered();
      assert a == Sizes(|beforeShutdown|, |components|, |cleanups|);
      NothingYet(a, outcome);
      hide *;
      for i := 0 to |beforeShutdown|
        invariant trace == Befores(i) && errors == Reported(trace, outcome)
      {
        errors, trace := Perform(BeforeHook(i), outcome, errors, trace);
        NextActions(a, i);
      }
      for i := 0 to |components|
        invariant trace == Befores(a.befores) + Stops(i) && errors == Reported(trace, outcome)
      {
        errors, trace := Perform(StopComponent(i), outcome, errors, trace);
        NextActions(a, i);
        OneMore(Befores(a.befores), Stops(i), StopComponent(i), Stops(i + 1));
      }
      ghost var stopped := Befores(a.befores) + Stops(a.components);
      var i := |cleanups| - 1;
      while i >= 0
        invariant -1 <= i < |cleanups|
        invariant trace == stopped + Cleanups(a.cleanups, a.cleanups - 1 - i)
        invariant errors == Reported(trace, outcome)
      {
        errors, trace := Perform(Cleanup(i), outcome, errors, trace);
        NextActions(a, a.cleanups - 1 - i);
        OneMore(stopped, Cleanups(a.cleanups, a.cleanups - 1 - i), Cleanup(i), Cleanups(a.cleanups, a.cleanups - i));
        i := i - 1;
      }
    }
  }

  lemma NothingYet(a: Sizes, outcome: Action -> Option<int>)
    ensures Befores(0) == [] && Reported([], outcome) == []
    ensures Befores(a.befores) + Stops(0) == Befores(a.befores)
    ensures var stopped := Befores(a.befores) + Stops(a.components); stopped + Cleanups(a.cleanups, 0) == stopped
    ensures ShutdownOrder(a) == Befores(a.befores) + Stops(a.components) + Cleanups(a.cleanups, a.cleanups)
  {
  }

  lemma NextActions(a: Sizes, n: nat)
    ensures Befores(n + 1) == Befores(n) + [BeforeHook(n)] && Stops(n + 1) == Stops(n) + [StopComponent(n)]
    ensures n < a.cleanups ==> Cleanups(a.cleanups, n + 1) == Cleanups(a.cleanups, n) + [Cleanup(a.cleanups - 1 - n)]
  {
  }

  lemma OneMore(before: seq<Action>, part: seq<Action>, action: Action, longer: seq<Action>)
    requires longer == part + [action]
    ensures (before + part) + [action] == before + longer
  {
  }

  /** How many hooks, components and cleanups are registered. */
  datatype Sizes = Sizes(befores: nat, components: nat, cleanups: nat)

  function Befores(n: nat): seq<Action> {
    seq(n, i requires 0 <= i < n => BeforeHook(i))
  }

  function Stops(n: nat): seq<Action> {
    seq(n, i requires 0 <= i < n => StopComponent(i))
  }

  /** The first n cleanups that run: the last one registered comes first. */
  function Cleanups(all: nat, n: nat): seq<Action>
    requires n <= all
  {
    seq(n, i requires 0 <= i < n => Cleanup(all - 1 - i))
  }

  function ShutdownOrder(a: Sizes): seq<Action> {
    Befores(a.befores) + Stops(a.components) + Cleanups(a.cleanups, a.cleanups)
  }

  /** What the actions answer. */
  function Answers(trace: seq<Action>, outcome: Action -> Option<int>): seq<Option<int>> {
    seq(|trace|, i requires 0 <= i < |trace| => outcome(trace[i]))
  }

  /** The errors of the performed actions, in order. */
  function ErrorsOf(trace: seq<Action>, answers: seq<Option<int>>): seq<ShutdownError>
    requires |trace| == |answers|
  {
    if trace == [] then []
    else
      var k := |trace| - 1;
      ErrorsOf(trace[..k], answers[..k]) + (if answers[k].Some? then [Failed(trace[k], answers[k].value)] else [])
  }

  /** What is reported when the actions answer so. */
  function Reported(trace: seq<Action>, outcome: Action -> Option<int>): seq<ShutdownError> {
    ErrorsOf(trace, Answers(trace, outcome))
  }

  lemma ErrorsNext(trace: seq<Action>, answers: seq<Option<int>>, action: Action, answer: Option<int>)
    requires |trace| == |answers|
    ensures ErrorsOf(trace + [action], answers + [answer])
         == ErrorsOf(trace, answers) + (if answer.Some? then [Failed(action, answer.value)] else [])
  {
    assert (trace + [action])[..|trace|] == trace && (answers + [answer])[..|answers|] == answers;
  }

  /** Runs one action and records its error; an error does not stop the sequence. */
  method Perform(action: Action, outcome: Action -> Option<int>, errors: seq<ShutdownError>, ghost trace: seq<Action>)
    returns (errors': seq<ShutdownError>, ghost trace': seq<Action>)
    requires errors == Reported(trace, outcome)
    ensures trace' == trace + [action] && errors' == Reported(trace', outcome)
  {
    trace' := trace + [action];
    assert Answers(trace', outcome) == Answers(trace, outcome) + [outcome(action)];
    ErrorsNext(trace, Answers(trace, outcome), action, outcome(action));
    errors' := if outcome(action).Some? then errors + [Failed(action, outcome(action).value)] else errors;
  }

  /**
   * The i-th error is that of the action at position at[i], the positions go up, and they are those of
   * all actions that failed.
   */
  ghost predicate AccountsFor(trace: seq<Action>, answers: seq<Option<int>>, errors: seq<ShutdownError>, at: seq<nat>)
    requires |trace| == |answers|
  {
    && |at| == |errors|
    && Increasing(at)
    && (forall i :: 0 <= i < |at| ==>
          at[i] < |trace| && answers[at[i]].Some? && errors[i] == Failed(trace[at[i]], answers[at[i]].value))
    && (forall k :: 0 <= k < |trace| && answers[k].Some? ==> k in at)
  }

  /** The errors are those of the failed actions, each once and in the order of the actions, and no others. */
  lemma {:induction false} ErrorsAccountedFor(trace: seq<Action>, answers: seq<Option<int>>) returns (at: seq<nat>)
    requires |trace| == |answers|
    ensures AccountsFor(trace, answers, ErrorsOf(trace, answers), at)
  {
    if trace == [] {
      at := [];
    } else {
      var k := |trace| - 1;
      assert ErrorsOf(trace, answers)
          == ErrorsOf(trace[..k], answers[..k]) + (if answers[k].Some? then [Failed(trace[k], answers[k].value)] else []);
      hide AccountsFor, ErrorsOf;
      at := ErrorsAccountedFor(trace[..k], answers[..k]);
      MoreAccountedFor(trace, answers, k, ErrorsOf(trace[..k], answers[..k]), at);
      at := if answers[k].Some? then at + [k] else at;
    }
  }

  lemma MoreAccountedFor(trace: seq<Action>, answers: seq<Option<int>>, k: nat, errors: seq<ShutdownError>, at: seq<nat>)
    requires |trace| == |answers| == k + 1 && AccountsFor(trace[..k], answers[..k], errors, at)
    ensures if answers[k].Some? then AccountsFor(trace, answers, errors + [Failed(trace[k], answers[k].value)], at + [k])
            else AccountsFor(trace, answers, errors, at)
  {
    assert forall i :: 0 <= i < k ==> trace[..k][i] == trace[i] && answers[..k][i] == answers[i];
  }

  /** What Shutdown returns: the error of every hook, component and cleanup that fails, in their order, and nothing else. */
  lemma ShutdownErrorsExactly(a: Sizes, outcome: Action -> Option<int>)
    ensures var order := ShutdownOrder(a);
      var errors := Reported(order, outcome);
      && (forall action, id :: Failed(action, id) in errors <==> action in order && outcome(action) == Some(id))
      && (forall i :: 0 <= i < |errors| ==> errors[i].Failed?)
      && (forall i, j :: 0 <= i < j < |errors| && errors[i].Failed? && errors[j].Failed? ==>
            ComesBefore(errors[i].action, errors[j].action))
  {
    var order := ShutdownOrder(a);
    var answers := Answers(order, outcome);
    var at := ErrorsAccountedFor(order, answers);
    OrderAsRegistered(a);
    hide ShutdownOrder, ErrorsOf, ComesBefore;
    var errors := ErrorsOf(order, answers);
    forall action, id
      ensures Failed(action, id) in errors <==> action in order && outcome(action) == Some(id)
    {
      if action in order && outcome(action) == Some(id) {
        var k :| 0 <= k < |order| && order[k] == action;
        assert answers[k] == Some(id) && k in at;
        var i :| 0 <= i < |at| && at[i] == k;
        assert errors[i] == Failed(action, id);
      }
    }
  }

  /** Hooks and components go in the order of registration, cleanups in the opposite one, after both. */
  predicate ComesBefore(x: Action, y: Action) {
    match (x, y)
    case (BeforeHook(i), BeforeHook(j)) => i < j
    case (StopComponent(i), StopComponent(j)) => i < j
    case (Cleanup(i), Cleanup(j)) => i > j
    case _ => x.BeforeHook? || (x.StopComponent? && y.Cleanup?)
  }

  lemma OrderAsRegistered(a: Sizes)
    ensures var order := ShutdownOrder(a);
      forall i, j :: 0 <= i < j < |order| ==> ComesBefore(order[i], order[j])
  {
  }

  /** Every hook, component and cleanup is visited exactly once. */
  lemma EachOnce(a: Sizes, action: Action)
    ensures var order := ShutdownOrder(a);
      var known := match action
        case BeforeHook(i) => i < a.befores
        case StopComponent(i) => i < a.components
        case Cleanup(i) => i < a.cleanups;
      && (action in order <==> known)
      && (forall i, j :: 0 <= i < j < |order| ==> order[i] != order[j])
  {
    var order := ShutdownOrder(a);
    match action {
      case BeforeHook(i) =>
        if i < a.befores { assert order[i] == action; }
      case StopComponent(i) =>
        if i < a.components { assert order[a.befores + i] == action; }
      case Cleanup(i) =>
        if i < a.cleanups { assert order[a.befores + a.components + (a.cleanups - 1 - i)] == action; }
    }
  }
}
