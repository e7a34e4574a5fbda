/**
 * Concurrent calls of Executor.Do as interleaved atomic steps.
 *
 * Each call has a program counter. Every access that takes a lock, tries the semaphore, or runs the
 * wrapped function to its result is one step; a run is any sequence of arrivals and steps, with any
 * clock readings, function results and cancellations. The state also keeps the history of the run.
 */
module ExecutorRuns {
  import opened Common
  import TB = TokenBucket
  import CB = CircuitBreaker
  import opened Retry
  import opened Executor

  datatype Pc =
    | AtLimiter
    | AtBreaker
    | AtSemaphore
    | Calling(attempt: nat)
    | Sleeping(attempt: nat, last: CallError)
    | Reporting(err: Option<CallError>)
    | Releasing(err: Option<CallError>)
    | Returned(verdict: Verdict)

  /** What the environment supplies to a step; each step uses at most one part. */
  datatype Input = Input(now: real, result: Option<CallError>, cancelled: Option<CallError>)

  datatype Entry<T> = Entry(id: nat, what: T)

  datatype State = State(
    shared: Shared,
    calls: map<nat, Pc>,
    times: seq<real>,                               // when each passage of the limiter happened
    takes: seq<Entry<bool>>,                        // who asked the limiter, and the answer
    reports: seq<Entry<CB.Outcome>>,                // who reported to the breaker, and what
    invocations: seq<Entry<Option<CallError>>>,     // who ran the function, and its result
    waits: seq<Entry<Option<CallError>>>)           // who waited for the next attempt, and the error that ended the wait

  datatype Move = Arrive(id: nat) | Advance(id: nat, input: Input)

  function Start(o: Options, now: real): State {
    State(Initial(o, now), map[], [], [], [], [], [])
  }

  function Goto(s: State, id: nat, pc: Pc): State {
    s.(calls := s.calls[id := pc])
  }

  function Step(cfg: Config, s: State, id: nat, input: Input): State
    requires id in s.calls
  {
    var sh := s.shared;
    match s.calls[id]
    case AtLimiter =>
      if sh.bucket.None? then Goto(s, id, AtBreaker)
      else
        var (bucket, ok) := TB.Take(sh.bucket.value, input.now);
        Goto(s.(shared := sh.(bucket := Some(bucket)),
                times := s.times + [input.now],
                takes := s.takes + [Entry(id, ok)]),
             id, if ok then AtBreaker else Returned(RateLimited))
    case AtBreaker =>
      Goto(s, id, if sh.breaker.Some? && CB.IsOpen(sh.breaker.value, input.now) then Returned(CircuitOpen)
                  else AtSemaphore)
    case AtSemaphore =>
      if cfg.limit == 0 then Goto(s, id, Calling(0))
      else if sh.held >= cfg.limit then Goto(s, id, Returned(ConcurrencyLimited))
      else Goto(s.(shared := sh.(held := sh.held + 1)), id, Calling(0))
    case Calling(attempt) =>
      Goto(s.(invocations := s.invocations + [Entry(id, input.result)]), id,
           match input.result
           case None => Reporting(None)
           case Some(e) =>
             if attempt + 1 >= cfg.attempts || !ShouldRetry(e) then Reporting(Some(e)) else Sleeping(attempt, e))
    case Sleeping(attempt, last) =>
      var ended := if cfg.backoff > 0.0 then input.cancelled else None;
      Goto(s.(waits := s.waits + [Entry(id, ended)]), id,
           if ended.Some? then Reporting(ended) else Calling(attempt + 1))
    case Reporting(err) =>
      if sh.breaker.None? then Goto(s, id, Releasing(err))
      else
        var o := OutcomeOf(err, input.now);
        Goto(s.(shared := Reported(sh, err, input.now), reports := s.reports + [Entry(id, o)]), id, Releasing(err))
    case Releasing(err) =>
      Goto(s.(shared := sh.(held := if cfg.limit > 0 && sh.held > 0 then sh.held - 1 else sh.held)),
           id, Returned(Completed(err)))
    case Returned(_) => s
  }

  function Apply(cfg: Config, s: State, m: Move): State {
    match m
    case Arrive(id) => if id in s.calls then s else Goto(s, id, AtLimiter)
    case Advance(id, input) => if id in s.calls then Step(cfg, s, id, input) else s
  }

  function Exec(cfg: Config, s: State, moves: seq<Move>): State
    decreases |moves|
  {
    if moves == [] then s else Exec(cfg, Apply(cfg, s, moves[0]), moves[1..])
  }

  // ---- what a state says about its history -------------------------------------------------

  /** The part of a history that belongs to one call. */
  function Of<T>(log: seq<Entry<T>>, id: nat): seq<T> {
    if log == [] then []
    else Of(log[..|log| - 1], id) + (if log[|log| - 1].id == id then [log[|log| - 1].what] else [])
  }

  function Whats<T>(log: seq<Entry<T>>): seq<T> {
    seq(|log|, i requires 0 <= i < |log| => log[i].what)
  }

  lemma OfNext<T>(log: seq<Entry<T>>, e: Entry<T>, id: nat)
    ensures Of(log + [e], id) == Of(log, id) + (if e.id == id then [e.what] else [])
  {
    assert (log + [e])[..|log|] == log;
  }

  predicate Holds(pc: Pc) {
    pc.Calling? || pc.Sleeping? || pc.Reporting? || pc.Releasing?
  }

  predicate PassedLimiter(pc: Pc) {
    !pc.AtLimiter? && pc != Returned(RateLimited)
  }

  function Holders(s: State): set<nat> {
    set id | id in s.calls && Holds(s.calls[id])
  }

  function Passed(s: State): set<nat> {
    set id | id in s.calls && PassedLimiter(s.calls[id])
  }

  /** The results rs of the function and the errors ws that ended the waits explain the loop's result err. */
  ghost predicate Explains(cfg: Config, rs: seq<Option<CallError>>, ws: seq<Option<CallError>>, err: Option<CallError>) {
    && 1 <= |rs| <= cfg.attempts
    && AllRetried(rs[..|rs| - 1])
    && match rs[|rs| - 1]
       case None => err == None && Uncancelled(ws, |rs| - 1)
       case Some(e) =>
         if |rs| == cfg.attempts || !ShouldRetry(e) then err == Some(e) && Uncancelled(ws, |rs| - 1)
         else cfg.backoff > 0.0 && |ws| == |rs| && Uncancelled(ws[..|rs| - 1], |rs| - 1) && err == ws[|rs| - 1] && err.Some?
  }

  /** There were n waits, and none of them was cut short. */
  ghost predicate Uncancelled(ws: seq<Option<CallError>>, n: nat) {
    |ws| == n && forall i :: 0 <= i < n ==> ws[i] == None
  }

  /** The world in which the attempts gave rs and the waits ended with ws. */
  function WorldOf(rs: seq<Option<CallError>>, ws: seq<Option<CallError>>): World {
    World((i: nat) => if i < |rs| then rs[i] else None, (i: nat) => if i < |ws| then ws[i] else None)
  }

  /** An explained result is what the retry loop means in that world. */
  lemma ExplainedIsMeant(cfg: Config, rs: seq<Option<CallError>>, ws: seq<Option<CallError>>, err: Option<CallError>)
    requires Explains(cfg, rs, ws, err)
    ensures Means(WorldOf(rs, ws), cfg.attempts, cfg.backoff, err, |rs|)
  {
    hide ShouldRetry;
    var w, before := WorldOf(rs, ws), rs[..|rs| - 1];
    forall i | 0 <= i < |rs| - 1
      ensures GoesOn(w, cfg.backoff, i)
    {
      assert before[i] == rs[i];
      assert i < |ws| ==> ws[..|rs| - 1][i] == ws[i];
    }
  }

  ghost predicate AllRetried(rs: seq<Option<CallError>>) {
    forall i :: 0 <= i < |rs| ==> rs[i].Some? && ShouldRetry(rs[i].value)
  }

  /** What the program counter of a call says about that call's own history. */
  ghost predicate CallInv(cfg: Config, s: State, id: nat, pc: Pc) {
    Tells(cfg, s.shared.bucket.Some?, s.shared.breaker.Some?, pc,
          Of(s.takes, id), Of(s.reports, id), Of(s.invocations, id), Of(s.waits, id))
  }

  ghost predicate Tells(cfg: Config, limited: bool, guarded: bool, pc: Pc, takes: seq<bool>, reports: seq<CB.Outcome>,
                        results: seq<Option<CallError>>, waits: seq<Option<CallError>>)
  {
    && takes == (if !limited || pc.AtLimiter? then [] else [PassedLimiter(pc)])
    && (pc == Returned(RateLimited) ==> limited)
    && match pc
       case Calling(a) => |results| == a < cfg.attempts && AllRetried(results) && Uncancelled(waits, a) && reports == []
       case Sleeping(a, e) => |results| == a + 1 < cfg.attempts && AllRetried(results) && Uncancelled(waits, a) && reports == []
                              && results[a] == Some(e)
       case Reporting(err) => Explains(cfg, results, waits, err) && reports == []
       case Releasing(err) => Explains(cfg, results, waits, err) && ReportsOnce(guarded, reports, err)
       case Returned(Completed(err)) => Explains(cfg, results, waits, err) && ReportsOnce(guarded, reports, err)
       case _ => results == [] && waits == [] && reports == []
  }

  ghost predicate ReportsOnce(guarded: bool, reports: seq<CB.Outcome>, err: Option<CallError>) {
    if !guarded then reports == []
    else |reports| == 1 && (reports[0].Success? <==> err.None?)
  }

  ghost predicate Untouched(s: State, id: nat) {
    Of(s.takes, id) == [] && Of(s.reports, id) == [] && Of(s.invocations, id) == [] && Of(s.waits, id) == []
  }

  ghost predicate CallOk(cfg: Config, s: State, id: nat) {
    if id in s.calls then CallInv(cfg, s, id, s.calls[id]) else Untouched(s, id)
  }

  ghost predicate CallsInv(cfg: Config, s: State) {
    forall id: nat :: CallOk(cfg, s, id)
  }

  ghost predicate SemaphoreInv(cfg: Config, s: State) {
    if cfg.limit == 0 then s.shared.held == 0
    else s.shared.held == |Holders(s)| <= cfg.limit
  }

  /** The breaker is what replaying the reports, in the order they came, makes of it. */
  ghost predicate BreakerInv(init: Shared, s: State) {
    s.shared.breaker == (if init.breaker.None? then None
                         else Some(CB.Replay(init.breaker.value, Whats(s.reports))))
  }

  /** The bucket is what the calls' clock readings, in the order they came, make of it. */
  ghost predicate LimiterInv(init: Shared, s: State) {
    if init.bucket.None? then s.shared.bucket == None && s.takes == [] && s.times == []
    else
      && |s.times| == |s.takes|
      && s.shared.bucket == Some(TB.After(init.bucket.value, s.times, |s.times|))
      && (forall j :: 0 <= j < |s.times| ==> s.takes[j].what == TB.Admitted(init.bucket.value, s.times, j))
      && TB.Spent(init.bucket.value, s.times, 0, |s.times|) == |Passed(s)|
  }

  ghost predicate Inv(cfg: Config, init: Shared, s: State) {
    CallsInv(cfg, s) && SemaphoreInv(cfg, s) && BreakerInv(init, s) && LimiterInv(init, s)
  }

  // ---- one step keeps each part -------------------------------------------------------------

  /** A move adds at most one entry to each history, and only for the call that moves. */
  lemma HistoriesAfter(cfg: Config, s: State, m: Move, id: nat)
    ensures var s' := Apply(cfg, s, m);
      && (|s'.takes| > |s.takes| ==>
            Of(s'.takes, id) == Of(s.takes, id) + (if id == m.id then [s'.takes[|s.takes|].what] else []))
      && (|s'.reports| > |s.reports| ==>
            Of(s'.reports, id) == Of(s.reports, id) + (if id == m.id then [s'.reports[|s.reports|].what] else []))
      && (|s'.invocations| > |s.invocations| ==>
            Of(s'.invocations, id)
            == Of(s.invocations, id) + (if id == m.id then [s'.invocations[|s.invocations|].what] else []))
      && (|s'.waits| > |s.waits| ==>
            Of(s'.waits, id) == Of(s.waits, id) + (if id == m.id then [s'.waits[|s.waits|].what] else []))
  {
    hide Of;
    var s' := Apply(cfg, s, m);
    if |s'.takes| > |s.takes| {
      OfNext(s.takes, s'.takes[|s.takes|], id);
    }
    if |s'.reports| > |s.reports| {
      OfNext(s.reports, s'.reports[|s.reports|], id);
    }
    if |s'.invocations| > |s.invocations| {
      OfNext(s.invocations, s'.invocations[|s.invocations|], id);
    }
    if |s'.waits| > |s.waits| {
      OfNext(s.waits, s'.waits[|s.waits|], id);
    }
  }

  lemma OthersKept(cfg: Config, s: State, m: Move, id: nat)
    requires id != m.id
    ensures id in Apply(cfg, s, m).calls <==> id in s.calls
    ensures id in s.calls && CallInv(cfg, s, id, s.calls[id]) ==> CallInv(cfg, Apply(cfg, s, m), id, s.calls[id])
    ensures Untouched(s, id) ==> Untouched(Apply(cfg, s, m), id)
    ensures id in s.calls ==> Apply(cfg, s, m).calls[id] == s.calls[id]
  {
    OthersSeeNothing(cfg, s, m, id);
    hide Of, Apply, Tells;
  }

  /** A move leaves the histories of the other calls as they are. */
  lemma OthersSeeNothing(cfg: Config, s: State, m: Move, id: nat)
    requires id != m.id
    ensures var s' := Apply(cfg, s, m);
      && Of(s'.takes, id) == Of(s.takes, id) && Of(s'.reports, id) == Of(s.reports, id)
      && Of(s'.invocations, id) == Of(s.invocations, id) && Of(s'.waits, id) == Of(s.waits, id)
      && (id in s'.calls <==> id in s.calls) && (id in s.calls ==> s'.calls[id] == s.calls[id])
      && s'.shared.bucket.None? == s.shared.bucket.None? && s'.shared.breaker.None? == s.shared.breaker.None?
  {
    HistoriesAfter(cfg, s, m, id);
    HistoriesGrow(cfg, s, m);
    hide Of, TB.Take, CB.Report, CB.IsOpen, ShouldRetry, OutcomeOf;
  }

  lemma HistoriesGrow(cfg: Config, s: State, m: Move)
    ensures var s' := Apply(cfg, s, m);
      && (s'.takes == s.takes || |s'.takes| > |s.takes|) && (s'.reports == s.reports || |s'.reports| > |s.reports|)
      && (s'.invocations == s.invocations || |s'.invocations| > |s.invocations|)
      && (s'.waits == s.waits || |s'.waits| > |s.waits|)
  {
    hide TB.Take, CB.Report, CB.IsOpen, ShouldRetry, OutcomeOf;
  }

  /** One more result ends the attempts, or leads to a wait. */
  lemma ResultAdded(cfg: Config, rs: seq<Option<CallError>>, ws: seq<Option<CallError>>, result: Option<CallError>)
    requires |rs| < cfg.attempts && AllRetried(rs) && Uncancelled(ws, |rs|)
    ensures var more := rs + [result];
      if result.None? then Explains(cfg, more, ws, None)
      else if |more| == cfg.attempts || !ShouldRetry(result.value) then Explains(cfg, more, ws, result)
      else AllRetried(more)
  {
    hide ShouldRetry;
    assert (rs + [result])[..|rs|] == rs;
  }

  /** One more wait leads to the next attempt, or ends them with its own error. */
  lemma WaitAdded(cfg: Config, rs: seq<Option<CallError>>, ws: seq<Option<CallError>>, ended: Option<CallError>)
    requires 1 <= |rs| < cfg.attempts && AllRetried(rs) && Uncancelled(ws, |rs| - 1)
    ensures ended.None? ==> Uncancelled(ws + [ended], |rs|)
    ensures ended.Some? && cfg.backoff > 0.0 ==> Explains(cfg, rs, ws + [ended], ended)
  {
    hide ShouldRetry;
    assert (ws + [ended])[..|ws|] == ws && rs[|rs| - 1].Some?;
  }

  lemma OwnKept(cfg: Config, s: State, id: nat, input: Input)
    requires cfg.attempts > 0 && id in s.calls && CallInv(cfg, s, id, s.calls[id])
    ensures var s' := Step(cfg, s, id, input); id in s'.calls && CallInv(cfg, s', id, s'.calls[id])
  {
    hide Of, TB.Take, CB.Report, CB.IsOpen, ShouldRetry, AllRetried, Explains;
    HistoriesAfter(cfg, s, Advance(id, input), id);
    var rs, ws := Of(s.invocations, id), Of(s.waits, id);
    match s.calls[id]
    case Calling(_) =>
      hide Uncancelled;
      UncancelledLength(ws, |rs|);
      ResultAdded(cfg, rs, ws, input.result);
    case Sleeping(_, _) =>
      hide Uncancelled;
      UncancelledLength(ws, |rs| - 1);
      WaitAdded(cfg, rs, ws, if cfg.backoff > 0.0 then input.cancelled else None);
    case _ =>
      NoAttemptYet();
  }

  lemma NoAttemptYet()
    ensures AllRetried([]) && Uncancelled([], 0)
  {
  }

  lemma UncancelledLength(ws: seq<Option<CallError>>, n: nat)
    ensures Uncancelled(ws, n) ==> |ws| == n
  {
  }

  lemma CallKept(cfg: Config, s: State, m: Move, id: nat)
    requires cfg.attempts > 0 && CallOk(cfg, s, id)
    ensures CallOk(cfg, Apply(cfg, s, m), id)
  {
    hide CallInv, Step, Untouched;
    if id != m.id {
      OthersKept(cfg, s, m, id);
    } else if m.Advance? && id in s.calls {
      OwnKept(cfg, s, id, m.input);
    } else {
      ArrivalKept(cfg, s, m);
    }
  }

  lemma CallsKept(cfg: Config, s: State, m: Move)
    requires cfg.attempts > 0 && CallsInv(cfg, s)
    ensures CallsInv(cfg, Apply(cfg, s, m))
  {
    hide CallOk, Apply;
    forall id: nat
      ensures CallOk(cfg, Apply(cfg, s, m), id)
    {
      CallKept(cfg, s, m, id);
    }
  }

  lemma ArrivalKept(cfg: Config, s: State, m: Move)
    requires CallOk(cfg, s, m.id) && (m.Arrive? || m.id !in s.calls)
    ensures CallOk(cfg, Apply(cfg, s, m), m.id)
  {
  }

  lemma SetAfterGoto(before: set<nat>, after: set<nat>, id: nat)
    requires after - {id} == before - {id}
    ensures |after| == |before| + (if id in after then 1 else 0) - (if id in before then 1 else 0)
  {
    assert before == (before - {id}) + (if id in before then {id} else {});
    assert after == (after - {id}) + (if id in after then {id} else {});
  }

  lemma SemaphoreKept(cfg: Config, s: State, m: Move)
    requires SemaphoreInv(cfg, s)
    ensures SemaphoreInv(cfg, Apply(cfg, s, m))
  {
    hide TB.Take, CB.Report, CB.IsOpen, ShouldRetry;
    var s' := Apply(cfg, s, m);
    SetAfterGoto(Holders(s), Holders(s'), m.id);
    if m.id in s.calls && Holds(s.calls[m.id]) {
      assert m.id in Holders(s);
    }
  }

  lemma BreakerKept(cfg: Config, init: Shared, s: State, m: Move)
    requires BreakerInv(init, s)
    ensures BreakerInv(init, Apply(cfg, s, m))
  {
    var s' := Apply(cfg, s, m);
    if |s'.reports| > |s.reports| {
      assert Whats(s'.reports)[..|s.reports|] == Whats(s.reports);
    }
  }

  /** Later clock readings do not change what the earlier calls did. */
  lemma {:induction false} AfterPrefix(b: TB.Bucket, ts: seq<real>, t: real, n: nat)
    requires n <= |ts|
    ensures TB.After(b, ts + [t], n) == TB.After(b, ts, n)
    ensures n < |ts| ==> TB.Admitted(b, ts + [t], n) == TB.Admitted(b, ts, n)
    ensures TB.Spent(b, ts + [t], 0, n) == TB.Spent(b, ts, 0, n)
  {
    if n > 0 {
      AfterPrefix(b, ts, t, n - 1);
    }
  }

  /** Only a call that the limiter admits joins the calls that passed it. */
  lemma PassedAfter(cfg: Config, s: State, m: Move)
    requires s.shared.bucket.Some?
    ensures var s' := Apply(cfg, s, m);
      |Passed(s')| == |Passed(s)| + (if |s'.takes| > |s.takes| && PassedLimiter(s'.calls[m.id]) then 1 else 0)
  {
    hide TB.Take, CB.IsOpen, CB.Report, ShouldRetry;
    SetAfterGoto(Passed(s), Passed(Apply(cfg, s, m)), m.id);
  }

  lemma LimiterKept(cfg: Config, init: Shared, s: State, m: Move)
    requires LimiterInv(init, s)
    ensures LimiterInv(init, Apply(cfg, s, m))
  {
    hide TB.Take, TB.After, TB.Admitted, TB.Spent, CB.IsOpen, CB.Report, ShouldRetry, Passed;
    var s' := Apply(cfg, s, m);
    if s.shared.bucket.Some? {
      PassedAfter(cfg, s, m);
      if |s'.takes| > |s.takes| {
        TakeKept(cfg, init.bucket.value, s, m.id, m.input);
      }
    }
  }

  lemma TakeKept(cfg: Config, b: TB.Bucket, s: State, id: nat, input: Input)
    requires id in s.calls && s.calls[id].AtLimiter? && s.shared.bucket.Some? && |s.times| == |s.takes|
    requires s.shared.bucket.value == TB.After(b, s.times, |s.times|)
    requires forall j :: 0 <= j < |s.times| ==> s.takes[j].what == TB.Admitted(b, s.times, j)
    ensures var s' := Step(cfg, s, id, input);
      && s'.shared.bucket == Some(TB.After(b, s'.times, |s'.times|))
      && (forall j :: 0 <= j < |s'.times| ==> s'.takes[j].what == TB.Admitted(b, s'.times, j))
      && TB.Spent(b, s'.times, 0, |s'.times|)
         == TB.Spent(b, s.times, 0, |s.times|) + (if PassedLimiter(s'.calls[id]) then 1 else 0)
  {
    hide TB.Level;
    var n, t := |s.times|, input.now;
    forall j: nat | j <= n
      ensures TB.After(b, s.times + [t], j) == TB.After(b, s.times, j)
      ensures j < n ==> TB.Admitted(b, s.times + [t], j) == TB.Admitted(b, s.times, j)
    {
      AfterPrefix(b, s.times, t, j);
    }
    AfterPrefix(b, s.times, t, n);
    TB.SpentNext(b, s.times + [t], 0, n);
    TB.AfterStep(b, s.times + [t], n + 1);
  }

  // ---- the theorems -------------------------------------------------------------------------

  lemma {:induction false} InvAlongRun(cfg: Config, init: Shared, s: State, moves: seq<Move>)
    requires cfg.attempts > 0 && Inv(cfg, init, s)
    ensures Inv(cfg, init, Exec(cfg, s, moves))
    decreases |moves|
  {
    if moves != [] {
      CallsKept(cfg, s, moves[0]);
      SemaphoreKept(cfg, s, moves[0]);
      BreakerKept(cfg, init, s, moves[0]);
      LimiterKept(cfg, init, s, moves[0]);
      InvAlongRun(cfg, init, Apply(cfg, s, moves[0]), moves[1..]);
    }
  }

  /** Every interleaving of any number of calls keeps the invariant. */
  lemma EveryRunSafe(o: Options, now: real, moves: seq<Move>)
    ensures Inv(ConfigOf(o), Initial(o, now), Exec(ConfigOf(o), Start(o, now), moves))
  {
    var s := Start(o, now);
    assert Holders(s) == {} && Passed(s) == {};
    assert Whats(s.reports) == [];
    InvAlongRun(ConfigOf(o), Initial(o, now), s, moves);
  }

  function Reached(o: Options, now: real, moves: seq<Move>): State {
    Exec(ConfigOf(o), Start(o, now), moves)
  }

  /**
   * Each call ends in exactly one way. A rejected call never ran the function and reported nothing.
   * An admitted call reported once, whatever number of attempts it made, and it returns what the retry
   * loop means in the world of its own attempts and waits.
   */
  lemma EndsInOneWay(o: Options, now: real, moves: seq<Move>, id: nat)
    requires var s := Reached(o, now, moves); id in s.calls && s.calls[id].Returned?
    ensures var s, init := Reached(o, now, moves), Initial(o, now);
      var v, takes, reports, results := s.calls[id].verdict, Of(s.takes, id), Of(s.reports, id), Of(s.invocations, id);
      var waits, cfg := Of(s.waits, id), ConfigOf(o);
      && takes == (if init.bucket.None? then [] else [v != RateLimited])
      && (v == RateLimited ==> init.bucket.Some?)
      && (v.Completed? <==> results != [])
      && (v.Completed? ==>
            && Explains(cfg, results, waits, v.err)
            && Means(WorldOf(results, waits), cfg.attempts, cfg.backoff, v.err, |results|))
      && (!v.Completed? || init.breaker.None? ==> reports == [])
      && (v.Completed? && init.breaker.Some? ==> |reports| == 1 && (reports[0].Success? <==> v.err.None?))
  {
    EveryRunSafe(o, now, moves);
    var s, init, cfg := Reached(o, now, moves), Initial(o, now), ConfigOf(o);
    assert Inv(cfg, init, s);
    hide *;
    CallTells(cfg, init, s, id);
    assert s.calls[id] == Returned(s.calls[id].verdict);
    ReturnedTells(cfg, init.bucket.Some?, init.breaker.Some?, s.calls[id].verdict,
                  Of(s.takes, id), Of(s.reports, id), Of(s.invocations, id), Of(s.waits, id));
  }

  lemma CallTells(cfg: Config, init: Shared, s: State, id: nat)
    requires Inv(cfg, init, s) && id in s.calls
    ensures Tells(cfg, init.bucket.Some?, init.breaker.Some?, s.calls[id],
                  Of(s.takes, id), Of(s.reports, id), Of(s.invocations, id), Of(s.waits, id))
  {
    hide Tells, Of, Whats, SemaphoreInv;
    assert CallOk(cfg, s, id);
  }

  lemma ReturnedTells(cfg: Config, limited: bool, guarded: bool, v: Verdict, takes: seq<bool>, reports: seq<CB.Outcome>,
                      results: seq<Option<CallError>>, waits: seq<Option<CallError>>)
    requires Tells(cfg, limited, guarded, Returned(v), takes, reports, results, waits)
    ensures takes == (if !limited then [] else [v != RateLimited])
    ensures v == RateLimited ==> limited
    ensures v.Completed? <==> results != []
    ensures v.Completed? ==>
      Explains(cfg, results, waits, v.err) && Means(WorldOf(results, waits), cfg.attempts, cfg.backoff, v.err, |results|)
    ensures !v.Completed? || !guarded ==> reports == []
    ensures v.Completed? && guarded ==> |reports| == 1 && (reports[0].Success? <==> v.err.None?)
  {
    if v.Completed? {
      ExplainedIsMeant(cfg, results, waits, v.err);
    }
    hide Means, WorldOf, AllRetried, ShouldRetry, Uncancelled;
  }

  /** A run whose calls have all returned holds no slot, and no run ever holds more than the limit. */
  lemma SlotsAreReturned(o: Options, now: real, moves: seq<Move>)
    ensures var s := Reached(o, now, moves);
      && (ConfigOf(o).limit > 0 ==> s.shared.held == |Holders(s)| <= ConfigOf(o).limit)
      && ((forall id :: id in s.calls ==> s.calls[id].Returned?) ==> s.shared.held == 0)
  {
    EveryRunSafe(o, now, moves);
    var s := Reached(o, now, moves);
    if forall id :: id in s.calls ==> s.calls[id].Returned? {
      assert Holders(s) == {};
    }
  }

  /**
   * The limiter under concurrency: it answered each call exactly as the window bound demands, and
   * as many tokens were spent as calls got past it.
   */
  lemma LimiterExactInEveryRun(o: Options, now: real, moves: seq<Move>)
    requires Initial(o, now).bucket.Some?
    ensures var s, b := Reached(o, now, moves), Initial(o, now).bucket.value;
      && b.last == now && |s.times| == |s.takes|
      && TB.Spent(b, s.times, 0, |s.times|) == |Passed(s)|
      && forall j :: 0 <= j < |s.takes| ==> (s.takes[j].what <==> TB.RoomInEveryWindow(b, s.times, j))
  {
    EveryRunSafe(o, now, moves);
    FullAtStart(o, now);
    hide Initial, Normalize, Exec, Start, ConfigOf, CallsInv, SemaphoreInv, BreakerInv, Passed;
    hide TB.RoomInEveryWindow, TB.Spent, TB.After, TB.Admitted;
    var s, b := Reached(o, now, moves), Initial(o, now).bucket.value;
    forall j | 0 <= j < |s.takes|
      ensures s.takes[j].what <==> TB.RoomInEveryWindow(b, s.times, j)
    {
      TB.Exact(b, s.times, j);
    }
  }

  lemma FullAtStart(o: Options, now: real)
    requires Initial(o, now).bucket.Some?
    ensures var b := Initial(o, now).bucket.value; b.tokens == b.burst && b.last == now
  {
  }

  /** The breaker under concurrency: its state is the one the interleaved reports spell out. */
  lemma BreakerMeansItsReports(o: Options, now: real, moves: seq<Move>)
    requires Initial(o, now).breaker.Some?
    ensures var s, f := Reached(o, now, moves), Normalize(o).failures;
      var streak := CB.Streak(Whats(s.reports));
      s.shared.breaker
      == Some(CB.Breaker(f, o.openFor, |streak| % f, CB.Deadline(f, o.openFor, streak)))
  {
    EveryRunSafe(o, now, moves);
    CB.RefinesHistory(o.failures, o.openFor, Whats(Reached(o, now, moves).reports));
  }

  // ---- progress -------------------------------------------------------------------------------

  /** An upper bound on the steps a call still has to take. */
  function Remaining(cfg: Config, pc: Pc): nat {
    match pc
    case AtLimiter => 2 * cfg.attempts + 5
    case AtBreaker => 2 * cfg.attempts + 4
    case AtSemaphore => 2 * cfg.attempts + 3
    case Calling(a) => if a < cfg.attempts then 2 * (cfg.attempts - a) + 2 else 2
    case Sleeping(a, _) => if a < cfg.attempts then 2 * (cfg.attempts - a) + 1 else 1
    case Reporting(_) => 2
    case Releasing(_) => 1
    case Returned(_) => 0
  }

  /** No call waits for another: whatever the rest do, a reachable call's own step brings it nearer its end. */
  lemma NeverBlocked(o: Options, now: real, moves: seq<Move>, id: nat, input: Input)
    requires id in Reached(o, now, moves).calls && !Reached(o, now, moves).calls[id].Returned?
    ensures var s := Reached(o, now, moves);
      Remaining(ConfigOf(o), Step(ConfigOf(o), s, id, input).calls[id]) < Remaining(ConfigOf(o), s.calls[id])
  {
    EveryRunSafe(o, now, moves);
    assert CallOk(ConfigOf(o), Reached(o, now, moves), id);
    hide *;
    AttemptsBounded(ConfigOf(o), Reached(o, now, moves), id);
    StepBringsNearer(ConfigOf(o), Reached(o, now, moves), id, input);
  }

  lemma AttemptsBounded(cfg: Config, s: State, id: nat)
    requires id in s.calls && CallOk(cfg, s, id)
    ensures s.calls[id].Calling? ==> s.calls[id].attempt < cfg.attempts
    ensures s.calls[id].Sleeping? ==> s.calls[id].attempt + 1 < cfg.attempts
  {
    hide Of, AllRetried, Uncancelled, Explains;
  }

  lemma StepBringsNearer(cfg: Config, s: State, id: nat, input: Input)
    requires id in s.calls && !s.calls[id].Returned?
    requires s.calls[id].Calling? ==> s.calls[id].attempt < cfg.attempts
    requires s.calls[id].Sleeping? ==> s.calls[id].attempt + 1 < cfg.attempts
    ensures id in Step(cfg, s, id, input).calls
    ensures Remaining(cfg, Step(cfg, s, id, input).calls[id]) < Remaining(cfg, s.calls[id])
  {
    hide TB.Take, CB.IsOpen, CB.Report, ShouldRetry;
  }

  // ---- one uninterrupted call is Executor.Do ----------------------------------------------------

  function AttemptMoves(cfg: Config, w: World, id: nat, i: nat): seq<Move>
    requires i < cfg.attempts
    decreases cfg.attempts - i
  {
    var call := Advance(id, Input(0.0, w.result(i), None));
    if i + 1 < cfg.attempts && GoesOn(w, cfg.backoff, i) then
      [call, Advance(id, Input(0.0, None, w.cancelled(i)))] + AttemptMoves(cfg, w, id, i + 1)
    else if i + 1 < cfg.attempts && w.result(i).Some? && ShouldRetry(w.result(i).value) then
      [call, Advance(id, Input(0.0, None, w.cancelled(i)))]
    else [call]
  }

  lemma {:induction false} ExecConcat(cfg: Config, s: State, a: seq<Move>, b: seq<Move>)
    ensures Exec(cfg, s, a + b) == Exec(cfg, Exec(cfg, s, a), b)
    decreases |a|
  {
    if a == [] {
      assert a + b == b;
    } else {
      assert (a + b)[1..] == a[1..] + b;
      ExecConcat(cfg, Apply(cfg, s, a[0]), a[1..], b);
    }
  }

  lemma ExecOne(cfg: Config, s: State, m: Move, rest: seq<Move>)
    ensures Exec(cfg, s, [m] + rest) == Exec(cfg, Apply(cfg, s, m), rest)
  {
    assert ([m] + rest)[1..] == rest;
  }

  /** The attempts of an uninterrupted call end with the retry loop's error and touch nothing shared. */
  lemma {:induction false} AttemptsRun(cfg: Config, s: State, w: World, id: nat, i: nat)
    requires i < cfg.attempts && id in s.calls && s.calls[id] == Calling(i)
    ensures var s' := Exec(cfg, s, AttemptMoves(cfg, w, id, i));
      && s'.shared == s.shared && id in s'.calls
      && s'.calls[id] == Reporting(Attempts(w, cfg.attempts, cfg.backoff, i).0)
    decreases cfg.attempts - i
  {
    hide TB.Take, CB.IsOpen, CB.Report, ShouldRetry;
    var call := Advance(id, Input(0.0, w.result(i), None));
    var sleep := Advance(id, Input(0.0, None, w.cancelled(i)));
    var s1 := Apply(cfg, s, call);
    var s2 := Apply(cfg, s1, sleep);
    if i + 1 < cfg.attempts && GoesOn(w, cfg.backoff, i) {
      var rest := AttemptMoves(cfg, w, id, i + 1);
      assert [call, sleep] + rest == [call] + ([sleep] + rest);
      ExecOne(cfg, s, call, [sleep] + rest);
      ExecOne(cfg, s1, sleep, rest);
      AttemptsRun(cfg, s2, w, id, i + 1);
    } else if i + 1 < cfg.attempts && w.result(i).Some? && ShouldRetry(w.result(i).value) {
      assert [call, sleep] == [call] + [sleep];
      ExecOne(cfg, s, call, [sleep]);
      ExecOne(cfg, s1, sleep, []);
    } else {
      ExecOne(cfg, s, call, []);
    }
  }

  /** A step that looks only at the clock. */
  function At(id: nat, t: real): Move {
    Advance(id, Input(t, None, None))
  }

  /** The moves of one call that nothing interrupts. */
  function DoMoves(cfg: Config, id: nat, t1: real, t2: real, t3: real, w: World): seq<Move>
    requires cfg.attempts > 0
  {
    [Arrive(id), At(id, t1), At(id, t2), At(id, 0.0)] + (AttemptMoves(cfg, w, id, 0) + [At(id, t3), At(id, 0.0)])
  }

  /** A call that is not there, or has ended, is not moved. */
  lemma {:induction false} EndedCallStays(cfg: Config, s: State, id: nat, moves: seq<Move>)
    requires id in s.calls && s.calls[id].Returned?
    requires forall m :: m in moves ==> m.Advance? && m.id == id
    ensures Exec(cfg, s, moves) == s
    decreases |moves|
  {
    if moves != [] {
      EndedCallStays(cfg, s, id, moves[1..]);
    }
  }

  lemma {:induction false} AttemptMovesAreOwn(cfg: Config, w: World, id: nat, i: nat)
    requires i < cfg.attempts
    ensures forall m :: m in AttemptMoves(cfg, w, id, i) ==> m.Advance? && m.id == id
    decreases cfg.attempts - i
  {
    if i + 1 < cfg.attempts {
      AttemptMovesAreOwn(cfg, w, id, i + 1);
    }
  }

  /** From the semaphore on: the attempts, the report and the release. */
  lemma AdmittedRun(cfg: Config, s: State, id: nat, t3: real, w: World)
    requires cfg.attempts > 0 && id in s.calls && s.calls[id] == Calling(0)
    ensures var s' := Exec(cfg, s, AttemptMoves(cfg, w, id, 0) + [At(id, t3), At(id, 0.0)]);
      var err := Attempts(w, cfg.attempts, cfg.backoff, 0).0;
      && id in s'.calls && s'.calls[id] == Returned(Completed(err))
      && var sh := Reported(s.shared, err, t3);
         s'.shared == sh.(held := if cfg.limit > 0 && sh.held > 0 then sh.held - 1 else sh.held)
  {
    hide Attempts, CB.Report, CB.IsOpen, TB.Take, ShouldRetry;
    var body := AttemptMoves(cfg, w, id, 0);
    AttemptsRun(cfg, s, w, id, 0);
    ExecConcat(cfg, s, body, [At(id, t3), At(id, 0.0)]);
    var s1 := Exec(cfg, s, body);
    assert [At(id, t3), At(id, 0.0)] == [At(id, t3)] + [At(id, 0.0)];
    ExecOne(cfg, s1, At(id, t3), [At(id, 0.0)]);
    ExecOne(cfg, Apply(cfg, s1, At(id, t3)), At(id, 0.0), []);
  }

  /** The way to the semaphore: admitted, or turned away with the verdict of Do. */
  lemma AdmissionRun(cfg: Config, s: State, id: nat, t1: real, t2: real, t3: real, w: World, tail: seq<Move>)
    returns (s3: State)
    requires cfg.attempts > 0 && id !in s.calls
    ensures Exec(cfg, s, [Arrive(id), At(id, t1), At(id, t2), At(id, 0.0)] + tail) == Exec(cfg, s3, tail)
    ensures id in s3.calls
    ensures var (sh, v) := DoSpec(cfg, s.shared, t1, t2, t3, w);
      if v.Completed? then
        && s3.calls[id] == Calling(0)
        && sh == Reported(s3.shared.(held := s.shared.held), v.err, t3)
        && s3.shared.held == s.shared.held + (if cfg.limit > 0 then 1 else 0)
      else s3.calls[id] == Returned(v) && s3.shared == sh
  {
    FourSteps(cfg, s, Arrive(id), At(id, t1), At(id, t2), At(id, 0.0), tail);
    hide Attempts, TB.Take, CB.IsOpen, CB.Report, Exec;
    var s2 := Apply(cfg, Apply(cfg, Apply(cfg, s, Arrive(id)), At(id, t1)), At(id, t2));
    s3 := Apply(cfg, s2, At(id, 0.0));
  }

  lemma FourSteps(cfg: Config, s: State, a: Move, b: Move, c: Move, d: Move, tail: seq<Move>)
    ensures Exec(cfg, s, [a, b, c, d] + tail)
         == Exec(cfg, Apply(cfg, Apply(cfg, Apply(cfg, Apply(cfg, s, a), b), c), d), tail)
  {
    hide Apply;
    var s0 := Apply(cfg, s, a);
    var s1 := Apply(cfg, s0, b);
    var s2 := Apply(cfg, s1, c);
    assert [a, b, c, d] + tail == [a] + ([b] + ([c] + ([d] + tail)));
    hide Exec;
    ExecOne(cfg, s, a, [b] + ([c] + ([d] + tail)));
    ExecOne(cfg, s0, b, [c] + ([d] + tail));
    ExecOne(cfg, s1, c, [d] + tail);
    ExecOne(cfg, s2, d, tail);
  }

  /** Executor.Do is the run in which one call takes all its steps with nothing in between. */
  lemma DoIsAnUninterruptedRun(cfg: Config, s: State, id: nat, t1: real, t2: real, t3: real, w: World)
    requires cfg.attempts > 0 && id !in s.calls
    ensures var s' := Exec(cfg, s, DoMoves(cfg, id, t1, t2, t3, w));
      && id in s'.calls && s'.calls[id].Returned?
      && (s'.shared, s'.calls[id].verdict) == DoSpec(cfg, s.shared, t1, t2, t3, w)
  {
    hide Attempts, TB.Take, CB.IsOpen, CB.Report, Exec, Step;
    var tail := AttemptMoves(cfg, w, id, 0) + [At(id, t3), At(id, 0.0)];
    AttemptMovesAreOwn(cfg, w, id, 0);
    var s3 := AdmissionRun(cfg, s, id, t1, t2, t3, w, tail);
    if s3.calls[id].Returned? {
      EndedCallStays(cfg, s3, id, tail);
    } else {
      AdmittedRun(cfg, s3, id, t3, w);
    }
  }
}
