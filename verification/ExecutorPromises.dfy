/** What the options of an executor promise about whole runs, in terms of clock readings and results alone. */
module ExecutorPromises {
  import opened Common
  import TB = TokenBucket
  import CB = CircuitBreaker
  import opened Retry
  import opened Executor
  import opened ExecutorRuns

  // ---- reports and clock readings ----------------------------------------------------------------

  /** What a call that ended with err, when the clock read now, tells the breaker. */
  ghost predicate Reports(report: CB.Outcome, err: Option<CallError>, now: real) {
    match err
    case None => report == CB.Success
    case Some(_) => report == CB.Failure(now)
  }

  /** Move m is the report of a call that ended with err. */
  ghost predicate IsReport(s: State, m: Move, err: Option<CallError>) {
    m.Advance? && m.id in s.calls && s.calls[m.id] == Reporting(err)
  }

  lemma ReachedNext(o: Options, now: real, moves: seq<Move>, k: nat)
    requires k < |moves|
    ensures Reached(o, now, moves[..k + 1]) == Apply(ConfigOf(o), Reached(o, now, moves[..k]), moves[k])
  {
    var cfg, s := ConfigOf(o), Start(o, now);
    assert moves[..k + 1] == moves[..k] + [moves[k]];
    ExecConcat(cfg, s, moves[..k], [moves[k]]);
    assert [moves[k]] == [moves[k]] + [];
    ExecOne(cfg, Exec(cfg, s, moves[..k]), moves[k], []);
  }

  lemma MoveReports(cfg: Config, s: State, m: Move)
    ensures var s' := Apply(cfg, s, m);
      || s'.reports == s.reports
      || (&& |s'.reports| == |s.reports| + 1 && s'.reports[..|s.reports|] == s.reports
          && var e := s'.reports[|s.reports|];
             e.id == m.id && exists err :: IsReport(s, m, err) && Reports(e.what, err, m.input.now))
  {
    hide TB.Take, CB.IsOpen, CB.Report, ShouldRetry;
    if m.Advance? && m.id in s.calls && s.calls[m.id].Reporting? {
      assert IsReport(s, m, s.calls[m.id].err);
    }
  }

  /** Report j of a run was made by some move of its call, and tells how the call ended and what the clock then read. */
  lemma {:induction false} ReportsAreReadings(o: Options, now: real, moves: seq<Move>, j: nat)
      returns (k: nat, err: Option<CallError>)
    requires j < |Reached(o, now, moves).reports|
    ensures var report := Reached(o, now, moves).reports[j];
      && k < |moves| && IsReport(Reached(o, now, moves[..k]), moves[k], err)
      && |Reached(o, now, moves[..k]).reports| == j
      && moves[k].id == report.id && Reports(report.what, err, moves[k].input.now)
    decreases |moves|
  {
    var n := |moves|;
    if n == 0 {
      assert false;
    }
    var s := Reached(o, now, moves[..n - 1]);
    assert moves[..n - 1 + 1] == moves;
    ReachedNext(o, now, moves, n - 1);
    MoveReports(ConfigOf(o), s, moves[n - 1]);
    hide Reached, Apply, IsReport, Reports;
    if j < |s.reports| {
      k, err := ReportsAreReadings(o, now, moves[..n - 1], j);
      assert moves[..n - 1][..k] == moves[..k];
    } else {
      k := n - 1;
      err :| IsReport(s, moves[k], err) && Reports(Reached(o, now, moves).reports[j].what, err, moves[k].input.now);
    }
  }

  lemma {:induction false} OwnEntry<T>(log: seq<Entry<T>>, id: nat) returns (j: nat)
    requires |Of(log, id)| == 1
    ensures j < |log| && log[j].id == id && Of(log, id) == [log[j].what]
  {
    if log[|log| - 1].id == id {
      j := |log| - 1;
    } else {
      j := OwnEntry(log[..|log| - 1], id);
    }
  }

  /** A call that completed made one report: a success, or a failure at the clock reading of the move that made it. */
  lemma CompletedCallReported(o: Options, now: real, moves: seq<Move>, id: nat) returns (k: nat)
    requires Initial(o, now).breaker.Some?
    requires var s := Reached(o, now, moves); id in s.calls && s.calls[id].Returned? && s.calls[id].verdict.Completed?
    ensures k < |moves| && moves[k].Advance? && moves[k].id == id
    ensures exists err :: IsReport(Reached(o, now, moves[..k]), moves[k], err)
    ensures var s := Reached(o, now, moves);
      Of(s.reports, id) == (if s.calls[id].verdict.err.None? then [CB.Success] else [CB.Failure(moves[k].input.now)])
  {
    hide Reached, Means, Explains, WorldOf, Initial;
    EndsInOneWay(o, now, moves, id);
    var s := Reached(o, now, moves);
    var j := OwnEntry(s.reports, id);
    var err;
    k, err := ReportsAreReadings(o, now, moves, j);
  }

  // ---- when the circuit is open --------------------------------------------------------------------

  /** The last n reports are failures, and before them there is a success or nothing. */
  ghost predicate FailuresSinceSuccess(reports: seq<Entry<CB.Outcome>>, n: nat) {
    && n <= |reports|
    && (forall i :: |reports| - n <= i < |reports| ==> reports[i].what.Failure?)
    && (n < |reports| ==> reports[|reports| - n - 1].what.Success?)
  }

  /** The reading of the report that last filled up a group of f failures, if one did. */
  ghost predicate LastFullGroup(reports: seq<Entry<CB.Outcome>>, n: nat, f: nat, last: nat) {
    && FailuresSinceSuccess(reports, n) && 0 < f <= n
    && |reports| - n <= last < |reports|
    && (last + 1 - (|reports| - n)) % f == 0 && |reports| - last - 1 < f
  }

  lemma {:induction false} StreakIs(reports: seq<Entry<CB.Outcome>>, n: nat)
    requires FailuresSinceSuccess(reports, n)
    ensures var streak := CB.Streak(Whats(reports));
      |streak| == n && forall i :: 0 <= i < n ==> reports[|reports| - n + i].what == CB.Failure(streak[i])
    decreases n
  {
    if n > 0 {
      var before := reports[..|reports| - 1];
      assert Whats(reports)[..|reports| - 1] == Whats(before);
      StreakIs(before, n - 1);
    }
  }

  lemma FullGroup(n: nat, f: nat)
    requires 0 < f <= n
    ensures 0 < n / f * f <= n && n / f * f % f == 0 && n - n / f * f < f
  {
    assert n == n / f * f + n % f;
    CB.LastMultiple(n, f);
    DivModUnique(n / f * f, f, n / f, 0);
  }

  /** Where a call that asks the breaker goes next. */
  function AfterBreaker(o: Options, s: State, id: nat, input: Input): Pc
    requires id in s.calls
  {
    Apply(ConfigOf(o), s, Advance(id, input)).calls[id]
  }

  /**
   * With fewer failures than the threshold since the last success, every call passes the breaker. With more,
   * the report that last filled up a group of them decides: a call that reads the clock within openFor after
   * that report's reading returns ErrCircuitOpen, and any other passes.
   */
  lemma OpenOnReadings(o: Options, now: real, moves: seq<Move>, n: nat, id: nat, input: Input) returns (last: nat)
    requires Initial(o, now).breaker.Some? && FailuresSinceSuccess(Reached(o, now, moves).reports, n)
    requires id in Reached(o, now, moves).calls && Reached(o, now, moves).calls[id].AtBreaker?
    ensures o.failures > 0
    ensures n < o.failures ==> AfterBreaker(o, Reached(o, now, moves), id, input) == AtSemaphore
    ensures n >= o.failures ==>
      var reports := Reached(o, now, moves).reports;
      && LastFullGroup(reports, n, o.failures, last)
      && AfterBreaker(o, Reached(o, now, moves), id, input)
         == if input.now < reports[last].what.at + o.openFor then Returned(CircuitOpen) else AtSemaphore
  {
    BreakerMeansItsReports(o, now, moves);
    var s, f := Reached(o, now, moves), o.failures;
    assert f > 0 && f == Normalize(o).failures;
    StreakIs(s.reports, n);
    hide Reached, Initial, Normalize, ConfigOf, CB.Streak, Whats, FailuresSinceSuccess, TB.Take, CB.Report, ShouldRetry;
    last := 0;
    if n >= f {
      FullGroup(n, f);
      var whole := n / f * f;
      last := |s.reports| - n + whole - 1;
      assert s.reports[|s.reports| - n + (whole - 1)].what == CB.Failure(CB.Streak(Whats(s.reports))[whole - 1]);
    }
  }

  /**
   * Once failures have reached the threshold, the last of them at reading t, a call that reads less than
   * t + openFor at the breaker returns ErrCircuitOpen and any other passes, until the next report.
   */
  lemma OpensWhenThresholdReached(o: Options, now: real, moves: seq<Move>, n: nat, id: nat, input: Input)
      returns (k: nat, err: Option<CallError>)
    requires Initial(o, now).breaker.Some? && FailuresSinceSuccess(Reached(o, now, moves).reports, n)
    requires id in Reached(o, now, moves).calls && Reached(o, now, moves).calls[id].AtBreaker?
    requires 0 < n && o.failures > 0 && n % o.failures == 0
    ensures k < |moves| && IsReport(Reached(o, now, moves[..k]), moves[k], err) && err.Some?
    ensures |Reached(o, now, moves[..k]).reports| == |Reached(o, now, moves).reports| - 1
    ensures AfterBreaker(o, Reached(o, now, moves), id, input)
         == if input.now < moves[k].input.now + o.openFor then Returned(CircuitOpen) else AtSemaphore
  {
    var reports := Reached(o, now, moves).reports;
    var last := OpenOnReadings(o, now, moves, n, id, input);
    k, err := ReportsAreReadings(o, now, moves, |reports| - 1);
    hide Reached, Initial, AfterBreaker, IsReport;
    if n < o.failures {
      DivModUnique(n, o.failures, 0, n);
    }
    MultipleIsWhole(n, o.failures, last + 1 - (|reports| - n));
  }

  lemma MultipleIsWhole(n: nat, f: nat, m: nat)
    requires 0 < f && 0 < n && n % f == 0 && m % f == 0 && m <= n && n - m < f
    ensures m == n
  {
    DivModUnique(n, f, m / f, n - m);
  }

  // ---- the limiter, the semaphore and the retries, in terms of the options ---------------------------

  /** How many of the calls i, ..., j - 1 at the limiter were let through. */
  function LetThrough(takes: seq<Entry<bool>>, i: nat, j: nat): nat
    requires i <= j <= |takes|
  {
    if i == j then 0 else LetThrough(takes, i, j - 1) + (if takes[j - 1].what then 1 else 0)
  }

  lemma {:induction false} LetThroughIsSpent(b: TB.Bucket, ts: seq<real>, takes: seq<Entry<bool>>, i: nat, j: nat)
    requires i <= j <= |takes| == |ts|
    requires forall k :: 0 <= k < |ts| ==> takes[k].what == TB.Admitted(b, ts, k)
    ensures LetThrough(takes, i, j) == TB.Spent(b, ts, i, j)
  {
    hide TB.Admitted;
    if i < j {
      LetThroughIsSpent(b, ts, takes, i, j - 1);
    }
  }

  /** The options ask for no limiter. */
  predicate LimiterIsOff(o: Options) {
    o.requests <= 0 || o.per <= 0.0
  }

  /** A window open for elapsed that let used calls through has room for one more. */
  predicate HasRoom(o: Options, elapsed: real, used: nat)
    requires !LimiterIsOff(o)
  {
    var burst := if o.burst > 0 then o.burst else o.requests;
    used as real + 1.0 <= burst as real + TB.Earned(o.requests as real / o.per, elapsed)
  }

  lemma LimiterOf(o: Options, now: real)
    ensures Initial(o, now).bucket.None? <==> LimiterIsOff(o)
    ensures !LimiterIsOff(o) ==>
      var b := Initial(o, now).bucket.value;
      && b.rate == o.requests as real / o.per && b.last == now
      && b.tokens == b.burst == (if o.burst > 0 then o.burst else o.requests) as real
  {
  }

  /** Since the start and since every earlier call there is room for call j. */
  ghost predicate RoomFor(o: Options, now: real, ts: seq<real>, takes: seq<Entry<bool>>, j: nat)
    requires !LimiterIsOff(o) && j < |ts| == |takes|
  {
    && HasRoom(o, ts[j] - now, LetThrough(takes, 0, j))
    && forall i :: 0 <= i <= j ==> HasRoom(o, ts[j] - ts[i], LetThrough(takes, i, j))
  }

  lemma RoomIsRoom(o: Options, now: real, ts: seq<real>, takes: seq<Entry<bool>>, j: nat)
    requires !LimiterIsOff(o) && j < |ts| == |takes|
    requires forall k :: 0 <= k < |ts| ==> takes[k].what == TB.Admitted(Initial(o, now).bucket.value, ts, k)
    ensures takes[j].what <==> RoomFor(o, now, ts, takes, j)
  {
    var b := Initial(o, now).bucket.value;
    LimiterOf(o, now);
    hide Initial, TB.Earned, TB.Admitted, TB.Spent, LetThrough;
    TB.Exact(b, ts, j);
    LetThroughIsSpent(b, ts, takes, 0, j);
    forall i | 0 <= i <= j
      ensures HasRoom(o, ts[j] - ts[i], LetThrough(takes, i, j)) <==> TB.HasRoom(b, ts[j] - ts[i], TB.Spent(b, ts, i, j))
    {
      LetThroughIsSpent(b, ts, takes, i, j);
    }
  }

  /**
   * The limiter lets a call through if and only if the time since the executor was made, and every window that
   * opens at an earlier call, has room for one more at the requests per period and the burst of the options.
   * Without such options it is never asked.
   */
  lemma LimiterFollowsOptions(o: Options, now: real, moves: seq<Move>)
    ensures var s := Reached(o, now, moves);
      if LimiterIsOff(o) then s.takes == []
      else
        && |s.times| == |s.takes|
        && forall j :: 0 <= j < |s.takes| ==> (s.takes[j].what <==> RoomFor(o, now, s.times, s.takes, j))
  {
    LimiterOf(o, now);
    EveryRunSafe(o, now, moves);
    var s := Reached(o, now, moves);
    assert LimiterInv(Initial(o, now), s);
    hide Reached, Initial, Inv, TB.Admitted, TB.After, TB.Spent, Passed, RoomFor, LimiterIsOff;
    if !LimiterIsOff(o) {
      forall j | 0 <= j < |s.takes|
        ensures s.takes[j].what <==> RoomFor(o, now, s.times, s.takes, j)
      {
        RoomIsRoom(o, now, s.times, s.takes, j);
      }
    }
  }

  lemma MoveTakes(cfg: Config, s: State, m: Move)
    ensures var s' := Apply(cfg, s, m);
      || (s'.takes == s.takes && s'.times == s.times)
      || (&& m.Advance? && m.id in s.calls && s.calls[m.id].AtLimiter?
          && s'.times == s.times + [m.input.now] && exists ok :: s'.takes == s.takes + [Entry(m.id, ok)])
  {
    hide TB.Take, CB.IsOpen, CB.Report, ShouldRetry;
    if m.Advance? && m.id in s.calls && s.calls[m.id].AtLimiter? && s.shared.bucket.Some? {
      var ok := TB.Take(s.shared.bucket.value, m.input.now).1;
      assert Apply(cfg, s, m).takes == s.takes + [Entry(m.id, ok)];
    }
  }

  /** The times that the limiter goes by are the clock readings of the calls that asked it. */
  lemma {:induction false} TimesAreReadings(o: Options, now: real, moves: seq<Move>, j: nat) returns (k: nat)
    requires j < |Reached(o, now, moves).takes|
    ensures var s := Reached(o, now, moves);
      && k < |moves| && moves[k].Advance? && moves[k].id == s.takes[j].id
      && |s.times| == |s.takes| && s.times[j] == moves[k].input.now
      && var before := Reached(o, now, moves[..k]);
         |before.takes| == j && moves[k].id in before.calls && before.calls[moves[k].id].AtLimiter?
    decreases |moves|
  {
    var n := |moves|;
    if n == 0 {
      assert false;
    }
    var s := Reached(o, now, moves[..n - 1]);
    assert moves[..n - 1 + 1] == moves;
    ReachedNext(o, now, moves, n - 1);
    MoveTakes(ConfigOf(o), s, moves[n - 1]);
    AsManyTimes(o, now, moves[..n - 1]);
    hide Reached, Apply;
    if j < |s.takes| {
      k := TimesAreReadings(o, now, moves[..n - 1], j);
      assert moves[..n - 1][..k] == moves[..k];
    } else {
      k := n - 1;
    }
  }

  lemma AsManyTimes(o: Options, now: real, moves: seq<Move>)
    ensures |Reached(o, now, moves).times| == |Reached(o, now, moves).takes|
  {
    EveryRunSafe(o, now, moves);
    assert LimiterInv(Initial(o, now), Reached(o, now, moves));
  }

  /**
   * A call is turned away at the semaphore if and only if the options set a limit and that many calls are
   * between it and their return.
   */
  lemma SemaphoreFollowsOptions(o: Options, now: real, moves: seq<Move>, id: nat, input: Input)
    requires id in Reached(o, now, moves).calls && Reached(o, now, moves).calls[id].AtSemaphore?
    ensures var s := Reached(o, now, moves);
      var next := Apply(ConfigOf(o), s, Advance(id, input));
      && (o.concurrencyLimit > 0 ==> |Holders(s)| <= o.concurrencyLimit)
      && next.calls[id] == (if 0 < o.concurrencyLimit == |Holders(s)| then Returned(ConcurrencyLimited) else Calling(0))
      && Holders(next) == (if 0 < o.concurrencyLimit == |Holders(s)| then Holders(s) else Holders(s) + {id})
  {
    EveryRunSafe(o, now, moves);
    hide Exec, Start, CallsInv, LimiterInv, BreakerInv;
  }

  /** A completed call ran the function at most as often as the options say, once if they say nothing, and means what Retry says. */
  lemma RetriesFollowOptions(o: Options, now: real, moves: seq<Move>, id: nat)
    requires var s := Reached(o, now, moves); id in s.calls && s.calls[id].Returned? && s.calls[id].verdict.Completed?
    ensures var s := Reached(o, now, moves);
      var results, waits, err := Of(s.invocations, id), Of(s.waits, id), s.calls[id].verdict.err;
      Means(WorldOf(results, waits), if o.attempts > 0 then o.attempts else 1, o.backoff, err, |results|)
  {
    EndsInOneWay(o, now, moves, id);
    hide Means, Reached;
  }
}
