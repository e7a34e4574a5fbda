/**
 * The token bucket of the runtime policy executor.
 *
 * Take is one call of Allow on values; the class updates the same fields in place. Timestamps
 * are arbitrary reals: the caller reads the clock before it takes the lock, so a later call may
 * carry an earlier time, and every theorem below holds without assuming otherwise.
 */
module TokenBucket {
  import opened Common

  datatype Bucket = Bucket(rate: real, burst: real, tokens: real, last: real)

  function MinReal(a: real, b: real): real {
    if a < b then a else b
  }

  /** The tokens that come in at that rate. */
  function Earned(rate: real, elapsed: real): real {
    elapsed * rate
  }

  /** Tokens available to a call at time now, before it spends one. */
  function Level(b: Bucket, now: real): real {
    MinReal(b.burst, b.tokens + Earned(b.rate, now - b.last))
  }

  function Take(b: Bucket, now: real): (Bucket, bool) {
    var level := Level(b, now);
    if level < 1.0 then (b.(tokens := level, last := now), false)
    else (b.(tokens := level - 1.0, last := now), true)
  }

  /** A bucket as newRateLimiter makes it: full, started at time start. */
  function Full(requests: nat, per: real, burst: nat, start: real): Bucket
    requires per > 0.0
  {
    Bucket(requests as real / per, burst as real, burst as real, start)
  }

  class RateLimiter {
    const rate: real
    const burst: real
    var tokens: real
    var last: real

    constructor (requests: nat, per: real, burst: nat, now: real)
      requires requests > 0 && per > 0.0
      ensures View() == Full(requests, per, burst, now)
    {
      this.rate := requests as real / per;
      this.burst := burst as real;
      this.tokens := burst as real;
      this.last := now;
    }

    function View(): Bucket
      reads this
    {
      Bucket(rate, burst, tokens, last)
    }

    method Allow(now: real) returns (ok: bool)
      modifies this
      ensures View() == Take(old(View()), now).0 && ok == Take(old(View()), now).1
    {
      var elapsed := now - last;
      last := now;
      tokens := MinReal(burst, tokens + Earned(rate, elapsed));
      if tokens < 1.0 {
        return false;
      }
      tokens := tokens - 1.0;
      return true;
    }
  }

  // ---- whole runs -------------------------------------------------------------------------

  /** The bucket after the first n calls of a run whose calls carry the times ts. */
  function After(b: Bucket, ts: seq<real>, n: nat): Bucket
    requires n <= |ts|
  {
    if n == 0 then b else Take(After(b, ts, n - 1), ts[n - 1]).0
  }

  predicate Admitted(b: Bucket, ts: seq<real>, j: nat)
    requires j < |ts|
  {
    Take(After(b, ts, j), ts[j]).1
  }

  /** How many of the calls i, ..., j - 1 were admitted. */
  function Spent(b: Bucket, ts: seq<real>, i: nat, j: nat): nat
    requires i <= j <= |ts|
  {
    if i == j then 0 else Spent(b, ts, i, j - 1) + (if Admitted(b, ts, j - 1) then 1 else 0)
  }

  // ---- the same run on the credit clock ---------------------------------------------------
  //
  // Measuring time in the tokens it earns (credit = rate * time) makes a run linear: Top is the
  // level of call j when the calls carry the credits cs and the bucket starts full at credit start.

  function Grant(level: real): nat {
    if level < 1.0 then 0 else 1
  }

  function Top(burst: real, start: real, cs: seq<real>, j: nat): real
    requires j < |cs|
  {
    if j == 0 then MinReal(burst, burst + cs[0] - start)
    else var before := Top(burst, start, cs, j - 1);
         MinReal(burst, before - Grant(before) as real + cs[j] - cs[j - 1])
  }

  function Grants(burst: real, start: real, cs: seq<real>, i: nat, j: nat): nat
    requires i <= j <= |cs|
  {
    if i == j then 0 else Grants(burst, start, cs, i, j - 1) + Grant(Top(burst, start, cs, j - 1))
  }

  /** No window, nor the start, leaves less room than the level. */
  lemma {:induction false} TopBelowEveryWindow(burst: real, start: real, cs: seq<real>, i: nat, j: nat)
    requires i <= j < |cs|
    ensures Top(burst, start, cs, j) <= burst + cs[j] - cs[i] - Grants(burst, start, cs, i, j) as real
    ensures Top(burst, start, cs, j) <= burst + cs[j] - start - Grants(burst, start, cs, 0, j) as real
    decreases j
  {
    if j > 0 {
      TopBelowEveryWindow(burst, start, cs, if i < j then i else 0, j - 1);
    }
  }

  /** Some window, or the start, leaves exactly the level. */
  lemma {:induction false} TopAttained(burst: real, start: real, cs: seq<real>, j: nat) returns (i: int)
    requires j < |cs|
    ensures -1 <= i <= j
    ensures i == -1 ==> Top(burst, start, cs, j) == burst + cs[j] - start - Grants(burst, start, cs, 0, j) as real
    ensures i >= 0 ==> Top(burst, start, cs, j) == burst + cs[j] - cs[i] - Grants(burst, start, cs, i, j) as real
  {
    if Top(burst, start, cs, j) == burst {
      i := j;
    } else if j == 0 {
      i := -1;
    } else {
      i := TopAttained(burst, start, cs, j - 1);
    }
  }

  function Credits(b: Bucket, ts: seq<real>): (cs: seq<real>)
    ensures |cs| == |ts| && forall i :: 0 <= i < |ts| ==> cs[i] == Earned(b.rate, ts[i])
  {
    seq(|ts|, i requires 0 <= i < |ts| => Earned(b.rate, ts[i]))
  }

  lemma EarnedBetween(rate: real, x: real, y: real)
    ensures Earned(rate, y - x) == Earned(rate, y) - Earned(rate, x)
  {
  }

  lemma EarnedForward(rate: real, elapsed: real)
    requires rate >= 0.0 && elapsed >= 0.0
    ensures Earned(rate, elapsed) >= 0.0
  {
  }

  /** The level a call finds, from the level the call before it found; the times earn ct and cn. */
  lemma LevelNext(b: Bucket, t: real, now: real, ct: real, cn: real)
    requires ct == Earned(b.rate, t) && cn == Earned(b.rate, now)
    ensures Level(Take(b, t).0, now) == MinReal(b.burst, Level(b, t) - Grant(Level(b, t)) as real + cn - ct)
    ensures Take(b, t).0.rate == b.rate && Take(b, t).0.burst == b.burst
  {
    hide Earned;
    EarnedBetween(b.rate, t, now);
  }

  lemma {:induction false} ConstantsKept(b: Bucket, ts: seq<real>, n: nat)
    requires n <= |ts|
    ensures After(b, ts, n).rate == b.rate && After(b, ts, n).burst == b.burst
  {
    if n > 0 {
      ConstantsKept(b, ts, n - 1);
    }
  }

  lemma AfterStep(b: Bucket, ts: seq<real>, j: nat)
    requires 0 < j <= |ts|
    ensures After(b, ts, j) == Take(After(b, ts, j - 1), ts[j - 1]).0
  {
  }

  lemma TopStep(burst: real, start: real, cs: seq<real>, j: nat)
    requires 0 < j < |cs|
    ensures var before := Top(burst, start, cs, j - 1);
            Top(burst, start, cs, j) == MinReal(burst, before - Grant(before) as real + cs[j] - cs[j - 1])
  {
  }

  lemma LevelStart(b: Bucket, ts: seq<real>)
    requires b.tokens == b.burst && 0 < |ts|
    ensures Level(After(b, ts, 0), ts[0]) == Top(b.burst, Earned(b.rate, b.last), Credits(b, ts), 0)
  {
    hide Earned;
    EarnedBetween(b.rate, b.last, ts[0]);
  }

  /** The bucket's run and the linear run agree call by call. */
  lemma {:induction false} LevelIsTop(b: Bucket, ts: seq<real>, j: nat)
    requires b.tokens == b.burst && j < |ts|
    ensures Level(After(b, ts, j), ts[j]) == Top(b.burst, Earned(b.rate, b.last), Credits(b, ts), j)
  {
    hide *;
    var start, cs := Earned(b.rate, b.last), Credits(b, ts);
    if j == 0 {
      LevelStart(b, ts);
    } else {
      LevelIsTop(b, ts, j - 1);
      ConstantsKept(b, ts, j - 1);
      LevelNext(After(b, ts, j - 1), ts[j - 1], ts[j], cs[j - 1], cs[j]);
      AfterStep(b, ts, j);
      TopStep(b.burst, start, cs, j);
    }
  }

  lemma AdmittedIsTop(b: Bucket, ts: seq<real>, j: nat)
    requires b.tokens == b.burst && j < |ts|
    ensures Admitted(b, ts, j) <==> Top(b.burst, Earned(b.rate, b.last), Credits(b, ts), j) >= 1.0
  {
    LevelIsTop(b, ts, j);
  }

  lemma {:induction false} SpentIsGrants(b: Bucket, ts: seq<real>, i: nat, j: nat)
    requires b.tokens == b.burst && i <= j <= |ts|
    ensures Spent(b, ts, i, j) == Grants(b.burst, Earned(b.rate, b.last), Credits(b, ts), i, j)
  {
    if i < j {
      SpentIsGrants(b, ts, i, j - 1);
      AdmittedIsTop(b, ts, j - 1);
    }
  }

  // ---- the theorems -----------------------------------------------------------------------

  /** Room for one more admission in a window open for elapsed that already holds used. */
  predicate HasRoom(b: Bucket, elapsed: real, used: nat) {
    used as real + 1.0 <= b.burst + Earned(b.rate, elapsed)
  }

  lemma HasRoomOnCredits(b: Bucket, since: real, now: real, used: nat, cs: real, cn: real)
    requires cs == Earned(b.rate, since) && cn == Earned(b.rate, now)
    ensures HasRoom(b, now - since, used) <==> used as real + 1.0 <= b.burst + cn - cs
  {
    hide Earned;
    EarnedBetween(b.rate, since, now);
  }

  /** No window reaching call j is full, exactly when the level of j on the credit clock is at least 1. */
  lemma WindowsAreTop(b: Bucket, ts: seq<real>, start: real, cs: seq<real>, j: nat)
    requires j < |ts| == |cs| && start == Earned(b.rate, b.last)
    requires forall i :: 0 <= i < |ts| ==> cs[i] == Earned(b.rate, ts[i])
    ensures Top(b.burst, start, cs, j) >= 1.0
       <==> (&& HasRoom(b, ts[j] - b.last, Grants(b.burst, start, cs, 0, j))
             && forall i :: 0 <= i <= j ==> HasRoom(b, ts[j] - ts[i], Grants(b.burst, start, cs, i, j)))
  {
    hide *;
    HasRoomOnCredits(b, b.last, ts[j], Grants(b.burst, start, cs, 0, j), start, cs[j]);
    TopBelowEveryWindow(b.burst, start, cs, j, j);
    forall i | 0 <= i <= j
      ensures HasRoom(b, ts[j] - ts[i], Grants(b.burst, start, cs, i, j))
         <==> Grants(b.burst, start, cs, i, j) as real + 1.0 <= b.burst + cs[j] - cs[i]
      ensures Top(b.burst, start, cs, j) <= b.burst + cs[j] - cs[i] - Grants(b.burst, start, cs, i, j) as real
    {
      HasRoomOnCredits(b, ts[i], ts[j], Grants(b.burst, start, cs, i, j), cs[i], cs[j]);
      TopBelowEveryWindow(b.burst, start, cs, i, j);
    }
    var i := TopAttained(b.burst, start, cs, j);
  }

  /** The window from the start up to call j, and every window opening at a call up to j, can take one more. */
  ghost predicate RoomInEveryWindow(b: Bucket, ts: seq<real>, j: nat)
    requires j < |ts|
  {
    && HasRoom(b, ts[j] - b.last, Spent(b, ts, 0, j))
    && forall i :: 0 <= i <= j ==> HasRoom(b, ts[j] - ts[i], Spent(b, ts, i, j))
  }

  /**
   * Exactness. For any times, monotone or not, a call is admitted exactly when the start and every
   * window that opens at a call up to it still have room for one more admission.
   */
  lemma Exact(b: Bucket, ts: seq<real>, j: nat)
    requires b.tokens == b.burst && j < |ts|
    ensures Admitted(b, ts, j) <==> RoomInEveryWindow(b, ts, j)
  {
    hide Admitted, HasRoom, Spent, Credits;
    AdmittedIsTop(b, ts, j);
    WindowsAreTop(b, ts, Earned(b.rate, b.last), Credits(b, ts), j);
    forall i | 0 <= i <= j
      ensures Spent(b, ts, i, j) == Grants(b.burst, Earned(b.rate, b.last), Credits(b, ts), i, j)
    {
      SpentIsGrants(b, ts, i, j);
    }
  }

  lemma SpentNext(b: Bucket, ts: seq<real>, i: nat, j: nat)
    requires i <= j < |ts|
    ensures Spent(b, ts, i, j + 1) == Spent(b, ts, i, j) + (if Admitted(b, ts, j) then 1 else 0)
    ensures Spent(b, ts, i, i) == 0
  {
  }

  ghost predicate WindowsKeepBound(b: Bucket, ts: seq<real>) {
    forall i, j :: 0 <= i <= j < |ts| ==> WindowKeepsBound(b, ts, i, j)
  }

  ghost predicate WindowKeepsBound(b: Bucket, ts: seq<real>, i: nat, j: nat)
    requires i <= j < |ts|
  {
    Spent(b, ts, i, j + 1) as real <= b.burst + Earned(b.rate, ts[j] - ts[i])
  }

  /** A window that ends in an admitted call holds at most burst + rate * elapsed admissions. */
  lemma WindowBound(b: Bucket, ts: seq<real>, i: nat, j: nat)
    requires b.tokens == b.burst && i <= j < |ts| && Admitted(b, ts, j)
    ensures WindowKeepsBound(b, ts, i, j)
    ensures Spent(b, ts, 0, j + 1) as real <= b.burst + Earned(b.rate, ts[j] - b.last)
  {
    hide Admitted, Spent;
    Exact(b, ts, j);
    SpentNext(b, ts, i, j);
    SpentNext(b, ts, 0, j);
  }

  /** With a clock that never goes back, every window keeps the bound, whatever it ends in. */
  lemma {:induction false} MonotoneWindowBound(b: Bucket, ts: seq<real>, i: nat, j: nat)
    requires b.tokens == b.burst && b.rate >= 0.0 && b.burst >= 0.0 && i <= j < |ts|
    requires forall k :: 0 < k < |ts| ==> ts[k - 1] <= ts[k]
    ensures WindowKeepsBound(b, ts, i, j)
  {
    hide *;
    if Admitted(b, ts, j) {
      WindowBound(b, ts, i, j);
    } else if i < j {
      MonotoneWindowBound(b, ts, i, j - 1);
      RejectedKeepsBound(b, ts, i, j);
    } else {
      RejectedAlone(b, ts, j);
    }
  }

  lemma RejectedKeepsBound(b: Bucket, ts: seq<real>, i: nat, j: nat)
    requires i < j < |ts| && b.rate >= 0.0 && ts[j - 1] <= ts[j]
    requires !Admitted(b, ts, j) && WindowKeepsBound(b, ts, i, j - 1)
    ensures WindowKeepsBound(b, ts, i, j)
  {
    hide Admitted, Spent, Earned;
    SpentNext(b, ts, i, j);
    assert j - 1 + 1 == j && (ts[j] - ts[i]) - (ts[j - 1] - ts[i]) == ts[j] - ts[j - 1];
    EarnedBetween(b.rate, ts[j - 1] - ts[i], ts[j] - ts[i]);
    EarnedForward(b.rate, ts[j] - ts[j - 1]);
  }

  lemma RejectedAlone(b: Bucket, ts: seq<real>, j: nat)
    requires j < |ts| && b.burst >= 0.0 && !Admitted(b, ts, j)
    ensures WindowKeepsBound(b, ts, j, j)
  {
    hide Admitted, Spent;
    SpentNext(b, ts, j, j);
    assert Earned(b.rate, ts[j] - ts[j]) == 0.0;
  }

  /** A clock that goes back breaks the bound for a window that ends in a rejected call. */
  lemma BackwardsClockOvershoots()
    ensures var b, ts := Bucket(1.0, 1.0, 1.0, 0.0), [0.0, -5.0];
            !Admitted(b, ts, 1) && Spent(b, ts, 0, 2) as real > b.burst + Earned(b.rate, ts[1] - ts[0])
  {
    var b, ts := Bucket(1.0, 1.0, 1.0, 0.0), [0.0, -5.0];
    assert Admitted(b, ts, 0);
    assert After(b, ts, 1) == Bucket(1.0, 1.0, 0.0, 0.0);
    assert Spent(b, ts, 0, 2) == Spent(b, ts, 0, 1) == 1;
  }

  /** A bucket as the code makes them: full, with a rate and a burst that are not negative. */
  predicate IsFresh(b: Bucket) {
    b.tokens == b.burst && b.rate >= 0.0 && b.burst >= 0.0
  }

  /** Whatever the limits, every window of these calls keeps the bound, if and only if the clock never went back. */
  lemma BoundHoldsExactly(ts: seq<real>)
    ensures (forall b :: IsFresh(b) ==> WindowsKeepBound(b, ts)) <==> (forall k :: 0 < k < |ts| ==> ts[k - 1] <= ts[k])
  {
    hide Spent;
    if forall k :: 0 < k < |ts| ==> ts[k - 1] <= ts[k] {
      forall b, i, j | IsFresh(b) && 0 <= i <= j < |ts|
        ensures WindowKeepsBound(b, ts, i, j)
      {
        MonotoneWindowBound(b, ts, i, j);
      }
    } else {
      var k :| 0 < k < |ts| && ts[k - 1] > ts[k];
      StepBackOvershoots(ts, k);
    }
  }

  /** A step back by d drives the bound of its window below zero at burst 1 and rate 2 / d. */
  lemma StepBackOvershoots(ts: seq<real>, k: nat)
    requires 0 < k < |ts| && ts[k - 1] > ts[k]
    ensures exists b :: IsFresh(b) && !WindowsKeepBound(b, ts)
  {
    var d := ts[k - 1] - ts[k];
    var b := Bucket(2.0 / d, 1.0, 1.0, ts[0]);
    assert Earned(b.rate, ts[k] - ts[k - 1]) == -2.0;
    assert !WindowKeepsBound(b, ts, k - 1, k);
    assert IsFresh(b) && !WindowsKeepBound(b, ts);
  }

  /** A client whose calls are at least 1 / rate apart is never rejected. */
  lemma {:induction false} SpacedClientNeverRejected(b: Bucket, ts: seq<real>, j: nat)
    requires b.tokens == b.burst >= 1.0 && b.rate > 0.0 && j < |ts|
    requires ts[0] >= b.last
    requires forall k :: 0 < k < |ts| ==> ts[k] - ts[k - 1] >= 1.0 / b.rate
    ensures Admitted(b, ts, j)
  {
    AdmittedIsTop(b, ts, j);
    SpacedCredits(b, ts);
    SpacedTop(b.burst, Earned(b.rate, b.last), Credits(b, ts), j);
  }

  lemma SpacedCredits(b: Bucket, ts: seq<real>)
    requires b.rate > 0.0 && 0 < |ts| && ts[0] >= b.last
    requires forall k :: 0 < k < |ts| ==> ts[k] - ts[k - 1] >= 1.0 / b.rate
    ensures Credits(b, ts)[0] >= Earned(b.rate, b.last)
    ensures forall k :: 0 < k < |ts| ==> Credits(b, ts)[k] - Credits(b, ts)[k - 1] >= 1.0
  {
    hide Earned;
    EarnedBetween(b.rate, b.last, ts[0]);
    EarnedForward(b.rate, ts[0] - b.last);
    var gap := 1.0 / b.rate;
    OneEarned(b.rate);
    forall k | 0 < k < |ts|
      ensures Credits(b, ts)[k] - Credits(b, ts)[k - 1] >= 1.0
    {
      EarnedBetween(b.rate, ts[k - 1], ts[k]);
      EarnedBetween(b.rate, gap, ts[k] - ts[k - 1]);
      EarnedForward(b.rate, ts[k] - ts[k - 1] - gap);
    }
  }

  lemma OneEarned(rate: real)
    requires rate > 0.0
    ensures Earned(rate, 1.0 / rate) == 1.0
  {
  }

  lemma {:induction false} SpacedTop(burst: real, start: real, cs: seq<real>, j: nat)
    requires burst >= 1.0 && j < |cs| && cs[0] >= start
    requires forall k :: 0 < k < |cs| ==> cs[k] - cs[k - 1] >= 1.0
    ensures Top(burst, start, cs, j) >= 1.0
  {
    if j > 0 {
      SpacedTop(burst, start, cs, j - 1);
    }
  }
}
