/**
 * One partition over any number of claims: messages produced, claims opened and ended, messages
 * redelivered, marked positions committed or lost.
 */
module ConsumerRuns {
  import opened Common
  import opened Retry
  import opened Executor
  import C = Consumer

  datatype Record = Record(offset: nat, decodes: bool)

  /** Where a claim starts while the group has committed nothing: at the first message or after the last. */
  datatype Policy = Oldest | Newest

  datatype Event = Opened | Marked(offset: nat) | Failed(offset: nat) | Stopped

  datatype State = State(
    log: seq<Record>,
    end: nat,                  // the offset after the last message
    claim: Option<nat>,        // while a claim is open: where it goes on
    marked: Option<nat>,       // the session's position: one past the last marked message
    committed: Option<nat>,    // the position the group keeps
    first: Option<nat>,        // where the first claim of all started
    base: nat,                 // where the last claim that found nothing committed started
    handled: set<nat>,         // the offsets handled without error at least once
    events: seq<Event>)

  datatype Move =
    | Produce(gap: nat, decodes: bool)   // offsets need not be consecutive
    | Open
    | Deliver(k: nat, ok: bool)          // message k reaches the handler, if it decodes; ok if no error came back
    | Stop
    | Commit

  function Start(): State {
    State([], 0, None, None, None, None, 0, {}, [])
  }

  /** Message k is the first one at or after position next. */
  predicate IsNext(log: seq<Record>, k: nat, next: nat) {
    k < |log| && next <= log[k].offset && (k > 0 ==> log[k - 1].offset < next)
  }

  function Mark(s: State, offset: nat): State {
    s.(claim := Some(offset + 1), marked := Some(offset + 1), events := s.events + [Marked(offset)])
  }

  function OpenAt(s: State, from: nat): State {
    s.(claim := Some(from), marked := s.committed,
       first := if s.first.None? then Some(from) else s.first,
       base := if s.committed.None? then from else s.base,
       events := s.events + [Opened])
  }

  /** One step; a move that is not enabled changes nothing. */
  function Apply(policy: Policy, s: State, m: Move): State {
    match m
    case Produce(gap, decodes) =>
      s.(log := s.log + [Record(s.end + gap, decodes)], end := s.end + gap + 1)
    case Open =>
      if s.claim.Some? then s
      else OpenAt(s, if s.committed.Some? then s.committed.value else if policy.Oldest? then 0 else s.end)
    case Deliver(k, ok) =>
      if s.claim.None? || !IsNext(s.log, k, s.claim.value) then s
      else if !s.log[k].decodes then Mark(s, s.log[k].offset)
      else if ok then Mark(s.(handled := s.handled + {s.log[k].offset}), s.log[k].offset)
      else s.(claim := None, events := s.events + [Failed(s.log[k].offset)])
    case Stop =>
      if s.claim.None? then s else s.(claim := None, events := s.events + [Stopped])
    case Commit =>
      if s.marked.None? then s else s.(committed := s.marked)
  }

  function Exec(policy: Policy, s: State, moves: seq<Move>): State
    decreases |moves|
  {
    if moves == [] then s else Exec(policy, Apply(policy, s, moves[0]), moves[1..])
  }

  // ---- the invariant -------------------------------------------------------------------------------------

  /** Every message from lo up to hi was handled without error at least once, or does not decode. */
  ghost predicate Covered(s: State, lo: nat, hi: nat) {
    forall r :: r in s.log && lo <= r.offset < hi && r.decodes ==> r.offset in s.handled
  }

  /** A claim is open after these events. */
  predicate OpenAfter(events: seq<Event>) {
    if events == [] then false
    else match events[|events| - 1]
      case Opened => true
      case Marked(_) => OpenAfter(events[..|events| - 1])
      case _ => false
  }

  ghost predicate Sorted(log: seq<Record>, end: nat) {
    && (forall i, j :: 0 <= i < j < |log| ==> log[i].offset < log[j].offset)
    && (forall i :: 0 <= i < |log| ==> log[i].offset < end)
  }

  ghost predicate PositionInv(policy: Policy, s: State) {
    && (s.claim.Some? ==> s.claim == Some(if s.marked.Some? then s.marked.value else s.base) && s.first.Some?)
    && (s.marked.Some? ==> s.base <= s.marked.value <= s.end && s.first.Some? && Covered(s, s.base, s.marked.value))
    && (s.committed.Some? ==> s.marked.Some? && s.base <= s.committed.value <= s.marked.value)
    && s.base <= s.end
    && (s.first.Some? ==> s.first.value <= s.base)
    && (policy.Oldest? ==> s.base == 0)
  }

  ghost predicate EventInv(s: State) {
    && (s.claim.Some? <==> OpenAfter(s.events))
    && MarksInsideClaims(s.events)
  }

  ghost predicate Inv(policy: Policy, s: State) {
    Sorted(s.log, s.end) && PositionInv(policy, s) && EventInv(s)
  }

  ghost predicate MarksInsideClaims(events: seq<Event>) {
    forall j :: 0 <= j < |events| && events[j].Marked? ==> OpenAfter(events[..j])
  }

  lemma EventAdded(events: seq<Event>, e: Event)
    requires MarksInsideClaims(events) && (e.Marked? ==> OpenAfter(events))
    ensures MarksInsideClaims(events + [e])
    ensures OpenAfter(events + [e]) <==> e.Opened? || (e.Marked? && OpenAfter(events))
  {
    var next := events + [e];
    assert next[..|events|] == events;
    forall j | 0 <= j < |next| && next[j].Marked?
      ensures OpenAfter(next[..j])
    {
      assert next[..j] == events[..j];
    }
  }

  lemma EventsKept(policy: Policy, s: State, m: Move)
    requires EventInv(s)
    ensures EventInv(Apply(policy, s, m))
  {
    hide MarksInsideClaims, OpenAfter;
    var t := Apply(policy, s, m);
    if t.events != s.events {
      var e := if m.Open? then Opened else if m.Stop? then Stopped
               else if t.claim.None? then Failed(s.log[m.k].offset) else Marked(s.log[m.k].offset);
      EventAdded(s.events, e);
    }
  }

  lemma PositionsKept(policy: Policy, s: State, m: Move)
    requires Sorted(s.log, s.end) && PositionInv(policy, s)
    ensures PositionInv(policy, Apply(policy, s, m))
  {
    hide OpenAfter;
    var t := Apply(policy, s, m);
    if m.Deliver? && t != s && t.claim.Some? {
      hide Covered;
      DeliveryCovers(s, m.k, t.handled);
      CoveredAgain(s.(handled := t.handled), t, s.base, s.log[m.k].offset + 1);
    } else if m.Produce? {
    } else {
    }
  }

  lemma CoveredAgain(s: State, t: State, lo: nat, hi: nat)
    requires s.log == t.log && s.handled == t.handled && Covered(s, lo, hi)
    ensures Covered(t, lo, hi)
  {
  }

  lemma SortedKept(policy: Policy, s: State, m: Move)
    requires Sorted(s.log, s.end)
    ensures Sorted(Apply(policy, s, m).log, Apply(policy, s, m).end)
  {
  }

  lemma StepKeepsInv(policy: Policy, s: State, m: Move)
    requires Inv(policy, s)
    ensures Inv(policy, Apply(policy, s, m))
  {
    hide Sorted, PositionInv, EventInv, Apply;
    SortedKept(policy, s, m);
    PositionsKept(policy, s, m);
    EventsKept(policy, s, m);
  }

  /** Marking message k covers everything up to it: nothing lies between the old position and k. */
  lemma DeliveryCovers(s: State, k: nat, handled: set<nat>)
    requires Sorted(s.log, s.end) && s.claim.Some? && IsNext(s.log, k, s.claim.value) && s.handled <= handled
    requires s.log[k].decodes ==> s.log[k].offset in handled
    requires Covered(s, s.base, s.claim.value)
    ensures Covered(s.(handled := handled), s.base, s.log[k].offset + 1)
  {
    forall i | 0 <= i < |s.log| && s.base <= s.log[i].offset < s.log[k].offset + 1 && s.log[i].decodes
      ensures s.log[i].offset in handled
    {
      if i < k {
        assert s.log[i] in s.log && s.log[i].offset <= s.log[k - 1].offset;
      }
    }
  }

  lemma {:induction false} RunKeepsInv(policy: Policy, s: State, moves: seq<Move>)
    requires Inv(policy, s)
    ensures Inv(policy, Exec(policy, s, moves))
    decreases |moves|
  {
    if moves != [] {
      StepKeepsInv(policy, s, moves[0]);
      RunKeepsInv(policy, Apply(policy, s, moves[0]), moves[1..]);
    }
  }

  // ---- safety over whole runs ------------------------------------------------------------------------------

  /**
   * In every run, each message from where the last claim without a committed position started up to
   * the marked position, and so up to the committed one, was handled without error at least once or
   * does not decode.
   */
  lemma MarkedWasHandled(policy: Policy, moves: seq<Move>)
    ensures var s := Exec(policy, Start(), moves);
      && (s.marked.Some? ==> Covered(s, s.base, s.marked.value))
      && (s.committed.Some? ==> s.marked.Some? && s.committed.value <= s.marked.value)
  {
    RunKeepsInv(policy, Start(), moves);
  }

  /** A failed message ends the claim: nothing is marked after it before a claim is opened again. */
  lemma FailureEndsTheClaim(policy: Policy, moves: seq<Move>, i: nat, j: nat)
    requires var events := Exec(policy, Start(), moves).events;
      i < j < |events| && events[i].Failed? && events[j].Marked?
    ensures exists k :: i < k < j && Exec(policy, Start(), moves).events[k] == Opened
  {
    RunKeepsInv(policy, Start(), moves);
    var events := Exec(policy, Start(), moves).events;
    LastOpened(events[..j], i);
  }

  lemma {:induction false} LastOpened(events: seq<Event>, i: nat)
    requires OpenAfter(events) && i < |events| && events[i].Failed?
    ensures exists k :: i < k < |events| && events[k] == Opened
  {
    if !events[|events| - 1].Opened? {
      LastOpened(events[..|events| - 1], i);
    }
  }

  /**
   * After a failure the next claim starts at the failed message or before it if and only if the group
   * has committed a position, or starts at the oldest message while it has not.
   */
  lemma FailedIsRedeliveredExactly(policy: Policy, before: seq<Move>, k: nat)
    requires var s := Exec(policy, Start(), before);
      s.claim.Some? && IsNext(s.log, k, s.claim.value) && s.log[k].decodes
    ensures var s := Exec(policy, Start(), before);
      var reopened := Apply(policy, Apply(policy, s, Deliver(k, false)), Open);
      reopened.claim.Some? && (reopened.claim.value <= s.log[k].offset <==> s.committed.Some? || policy == Oldest)
  {
    RunKeepsInv(policy, Start(), before);
  }

  /** After a commit the next claim goes on where the session was, however the present one ends. */
  lemma CommittedIsResumed(policy: Policy, before: seq<Move>, end: Move)
    requires Exec(policy, Start(), before).marked.Some?
    requires end == Stop || (end.Deliver? && !end.ok)
    ensures var s := Exec(policy, Start(), before);
      var ended := Apply(policy, Apply(policy, s, Commit), end);
      ended.claim == None ==> Apply(policy, ended, Open).claim == s.marked
  {
  }

  // ---- nothing skipped ----------------------------------------------------------------------------------------

  /** Everything from the group's very first position up to the marked one is covered. */
  ghost predicate NothingSkipped(s: State) {
    s.marked.Some? && s.first.Some? ==> Covered(s, s.first.value, s.marked.value)
  }

  /** With messages at 0 and 1: the first fails, nothing is committed, and the next claim starts after it. */
  lemma NewestSkips() returns (moves: seq<Move>, skipped: State)
    ensures skipped == Exec(Newest, Start(), moves) && !NothingSkipped(skipped)
  {
    moves := [Open, Produce(0, true), Deliver(0, false), Open, Produce(0, true), Deliver(1, true)];
    var s3 := Apply(Newest, Apply(Newest, Apply(Newest, Start(), moves[0]), moves[1]), moves[2]);
    var s5 := Apply(Newest, Apply(Newest, s3, moves[3]), moves[4]);
    skipped := Apply(Newest, s5, moves[5]);
    ExecUnfolds(Newest, Start(), moves);
    assert s3.claim == None && IsNext(s5.log, 1, 1);
    assert skipped.first == Some(0) && skipped.marked == Some(2);
    assert skipped.log[0] == Record(0, true) && skipped.log[0] in skipped.log;
  }

  lemma ExecUnfolds(policy: Policy, s: State, moves: seq<Move>)
    requires |moves| == 6
    ensures Exec(policy, s, moves) ==
      Apply(policy, Apply(policy, Apply(policy, Apply(policy, Apply(policy, Apply(policy, s,
        moves[0]), moves[1]), moves[2]), moves[3]), moves[4]), moves[5])
  {
    hide Apply;
    var s1 := Apply(policy, s, moves[0]);
    var s2 := Apply(policy, s1, moves[1]);
    var s3 := Apply(policy, s2, moves[2]);
    var s4 := Apply(policy, s3, moves[3]);
    assert Exec(policy, s, moves) == Exec(policy, s1, moves[1..]);
    assert Exec(policy, s1, moves[1..]) == Exec(policy, s2, moves[1..][1..]);
    assert moves[1..][1..] == moves[2..] && moves[2..][1..] == moves[3..] && moves[3..][1..] == moves[4..];
    assert Exec(policy, s2, moves[2..]) == Exec(policy, s3, moves[3..]);
    assert Exec(policy, s3, moves[3..]) == Exec(policy, s4, moves[4..]);
    assert moves[4..][1..] == [moves[5]] && [moves[5]][1..] == [];
    assert Exec(policy, s4, moves[4..]) == Exec(policy, Apply(policy, s4, moves[4]), [moves[5]]);
  }

  /** No run skips a message exactly when a group that has committed nothing starts at the first message. */
  lemma AtLeastOnceExactly(policy: Policy)
    ensures (forall moves: seq<Move> :: NothingSkipped(Exec(policy, Start(), moves))) <==> policy == Oldest
  {
    if policy == Oldest {
      forall moves: seq<Move>
        ensures NothingSkipped(Exec(policy, Start(), moves))
      {
        RunKeepsInv(policy, Start(), moves);
      }
    } else {
      var moves, skipped := NewestSkips();
    }
  }

  // ---- the claim loop takes these steps -------------------------------------------------------------------------

  /** Messages k, k + 1, ..., k + n - 1 delivered, none of them failing. */
  function Deliveries(k: nat, n: nat): seq<Move> {
    seq(n, i requires 0 <= i < n => Deliver(k + i, true))
  }

  ghost function DecodedOffsets(messages: seq<C.Message>): set<nat> {
    set i | 0 <= i < |messages| && messages[i].decodes :: messages[i].offset
  }

  function Marks(offsets: seq<nat>): seq<Event> {
    seq(|offsets|, i requires 0 <= i < |offsets| => Marked(offsets[i]))
  }

  /** The messages of a claim are those of the log from its position on. */
  ghost predicate Feeds(s: State, k: nat, messages: seq<C.Message>) {
    && s.claim.Some? && k + |messages| <= |s.log|
    && (messages != [] ==> IsNext(s.log, k, s.claim.value))
    && forall i :: 0 <= i < |messages| ==> s.log[k + i] == Record(messages[i].offset, messages[i].decodes)
  }

  lemma {:induction false} ExecLast(policy: Policy, s: State, moves: seq<Move>, m: Move)
    ensures Exec(policy, s, moves + [m]) == Apply(policy, Exec(policy, s, moves), m)
    decreases |moves|
  {
    hide Apply;
    if moves == [] {
      assert Exec(policy, s, [m]) == Exec(policy, Apply(policy, s, m), []);
    } else {
      assert (moves + [m])[1..] == moves[1..] + [m];
      ExecLast(policy, Apply(policy, s, moves[0]), moves[1..], m);
    }
  }

  lemma Delivered(policy: Policy, s: State, k: nat, m: C.Message)
    requires s.claim.Some? && IsNext(s.log, k, s.claim.value) && s.log[k] == Record(m.offset, m.decodes)
    ensures Apply(policy, s, Deliver(k, true)) ==
      s.(claim := Some(m.offset + 1), marked := Some(m.offset + 1),
         handled := s.handled + (if m.decodes then {m.offset} else {}), events := s.events + [Marked(m.offset)])
  {
    assert s.handled + {} == s.handled;
  }

  lemma NextToDeliver(s: State, k: nat, messages: seq<C.Message>, i: nat)
    requires Sorted(s.log, s.end) && Feeds(s, k, messages) && i < |messages|
    ensures IsNext(s.log, k + i, if i == 0 then s.claim.value else messages[i - 1].offset + 1)
  {
  }

  lemma Longer(k: nat, messages: seq<C.Message>, n: nat)
    requires 0 < n <= |messages|
    ensures Deliveries(k, n) == Deliveries(k, n - 1) + [Deliver(k + n - 1, true)]
    ensures Marks(C.Offsets(messages[..n])) == Marks(C.Offsets(messages[..n - 1])) + [Marked(messages[n - 1].offset)]
    ensures DecodedOffsets(messages[..n]) ==
      DecodedOffsets(messages[..n - 1]) + (if messages[n - 1].decodes then {messages[n - 1].offset} else {})
  {
    var before, all := messages[..n - 1], messages[..n];
    assert all == before + [messages[n - 1]];
    assert forall o :: o in DecodedOffsets(before) ==> exists i :: 0 <= i < |before| && all[i].decodes && all[i].offset == o;
  }

  /** t is s after n messages have been delivered and marked. */
  ghost predicate MarkedUpTo(s: State, t: State, messages: seq<C.Message>, n: nat)
    requires s.claim.Some? && n <= |messages|
  {
    && t.log == s.log
    && t.claim == Some(if n == 0 then s.claim.value else messages[n - 1].offset + 1)
    && t.marked == (if n == 0 then s.marked else Some(messages[n - 1].offset + 1))
    && t.handled == s.handled + DecodedOffsets(messages[..n])
    && t.events == s.events + Marks(C.Offsets(messages[..n]))
  }

  lemma MarkedOneMore(policy: Policy, s: State, t: State, k: nat, messages: seq<C.Message>, n: nat)
    requires Sorted(s.log, s.end) && Feeds(s, k, messages) && 0 < n <= |messages| && MarkedUpTo(s, t, messages, n - 1)
    ensures MarkedUpTo(s, Apply(policy, t, Deliver(k + n - 1, true)), messages, n)
  {
    hide Apply, Deliveries, Marks, DecodedOffsets, C.Offsets, IsNext, Sorted;
    NextToDeliver(s, k, messages, n - 1);
    Longer(k, messages, n);
    Delivered(policy, t, k + n - 1, messages[n - 1]);
  }

  lemma {:induction false} DeliveriesMark(policy: Policy, s: State, k: nat, messages: seq<C.Message>, n: nat)
    requires Sorted(s.log, s.end) && Feeds(s, k, messages) && n <= |messages|
    ensures MarkedUpTo(s, Exec(policy, s, Deliveries(k, n)), messages, n)
  {
    if n == 0 {
      assert Marks(C.Offsets(messages[..0])) == [] && Deliveries(k, 0) == [];
    } else {
      hide MarkedUpTo, Exec, Apply, Deliveries, Sorted;
      DeliveriesMark(policy, s, k, messages, n - 1);
      MarkedOneMore(policy, s, Exec(policy, s, Deliveries(k, n - 1)), k, messages, n);
      Longer(k, messages, n);
      ExecLast(policy, s, Deliveries(k, n - 1), Deliver(k + n - 1, true));
    }
  }

  /**
   * A call of ConsumeClaim is a run of this system: the messages it marks are the ones delivered here,
   * with the same marks in the same order, and its error is the failed delivery that ends the claim.
   */
  lemma ClaimIsARun(policy: Policy, s: State, k: nat, messages: seq<C.Message>, cfg: Config, sh: Shared,
                    stops: nat -> bool, n: nat, err: Option<Verdict>)
    requires Sorted(s.log, s.end) && Feeds(s, k, messages) && cfg.attempts > 0
    requires C.LeftAfter(cfg, sh, messages, stops, n, err)
    ensures var t := Exec(policy, s, Deliveries(k, n) + [if err.Some? then Deliver(k + n, false) else Stop]);
      && t.claim == None
      && t.marked == (if n == 0 then s.marked else Some(messages[n - 1].offset + 1))
      && t.handled == s.handled + DecodedOffsets(messages[..n])
      && t.events == s.events + Marks(C.Offsets(messages[..n])) + [if err.Some? then Failed(messages[n].offset) else Stopped]
  {
    hide Exec, Deliveries, Marks, DecodedOffsets, C.Offsets, C.After, DoSpec;
    DeliveriesMark(policy, s, k, messages, n);
    ExecLast(policy, s, Deliveries(k, n), if err.Some? then Deliver(k + n, false) else Stop);
  }
}
