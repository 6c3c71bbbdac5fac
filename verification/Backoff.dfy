/**
 The skip counter that slows down panel calls after failures, alone and under the
 guards that keep pulls and pushes from overlapping.
 */
module Backoff {
  /** Skip counters after each of the three calls. */
  datatype Call = ShouldSkip | OnSuccess | OnFailure

  function After(skip: int, call: Call): int
  {
    match call
    case ShouldSkip => if skip > 0 then skip - 1 else skip
    case OnSuccess => 0
    case OnFailure => if skip <= 0 then 1 else if skip < 8 then skip * 2 else skip
  }

  class ApiBackoff {
    var skipRemaining: int

    constructor ()
      ensures skipRemaining == 0
    {
      skipRemaining := 0;
    }

    method ShouldSkip() returns (skip: bool)
      modifies this
      ensures skip <==> old(skipRemaining) > 0
      ensures skipRemaining == After(old(skipRemaining), Call.ShouldSkip)
    {
      if skipRemaining > 0 {
        skipRemaining := skipRemaining - 1;
        return true;
      }
      return false;
    }

    method OnSuccess()
      modifies this
      ensures skipRemaining == After(old(skipRemaining), Call.OnSuccess)
    {
      skipRemaining := 0;
    }

    method OnFailure()
      modifies this
      ensures skipRemaining == After(old(skipRemaining), Call.OnFailure)
    {
      if skipRemaining <= 0 {
        skipRemaining := 1;
      } else if skipRemaining < 8 {
        skipRemaining := skipRemaining * 2;
      }
    }
  }

  function RunCalls(skip: int, calls: seq<Call>): int
    decreases |calls|
  {
    if calls == [] then skip else RunCalls(After(skip, calls[0]), calls[1..])
  }

  /** In any order of calls at most 14 attempts are ever skipped in a row. */
  lemma {:induction false} NeverAboveFourteen(skip: int, calls: seq<Call>)
    requires 0 <= skip <= 14
    ensures 0 <= RunCalls(skip, calls) <= 14
    decreases |calls|
  {
    if calls != [] {
      NeverAboveFourteen(After(skip, calls[0]), calls[1..]);
    }
  }

  /** And 14 is reached: four failures, one skip, one more failure. */
  lemma FourteenIsReached()
    ensures RunCalls(0, [OnFailure, OnFailure, OnFailure, OnFailure, ShouldSkip, OnFailure]) == 14
  {
    var calls := [OnFailure, OnFailure, OnFailure, OnFailure, ShouldSkip, OnFailure];
    assert calls[1..][1..] == calls[2..] && calls[2..][1..] == calls[3..] && calls[3..][1..] == calls[4..];
    assert calls[4..][1..] == calls[5..] && calls[5..][1..] == [];
    assert RunCalls(7, calls[5..]) == RunCalls(14, []) == 14;
    assert RunCalls(8, calls[4..]) == RunCalls(7, calls[5..]);
    assert RunCalls(4, calls[3..]) == RunCalls(8, calls[4..]);
    assert RunCalls(2, calls[2..]) == RunCalls(4, calls[3..]);
    assert RunCalls(1, calls[1..]) == RunCalls(2, calls[2..]);
  }

  // ---------- under the guard ----------

  /**
   active: the compare-and-swap flag; running: goroutines past the skip test; skipped:
   attempts skipped since the last one that ran.
   */
  datatype Guarded = Guarded(skip: int, active: bool, running: nat, skipped: nat)

  datatype Attempt =
    | Begin                    // CompareAndSwap, then shouldSkip
    | Finish(success: bool)    // the goroutine records the outcome, then clears the flag

  predicate Enabled(g: Guarded, a: Attempt)
  {
    a.Finish? ==> g.running > 0
  }

  function Step(g: Guarded, a: Attempt): Guarded
    requires Enabled(g, a)
  {
    match a
    case Begin =>
      if g.active then g
      else if g.skip > 0 then g.(skip := After(g.skip, ShouldSkip), skipped := g.skipped + 1)
      else g.(active := true, running := g.running + 1, skipped := 0)
    case Finish(success) =>
      g.(skip := After(g.skip, if success then OnSuccess else OnFailure), active := false, running := g.running - 1)
  }

  predicate Possible(g: Guarded, attempts: seq<Attempt>)
    decreases |attempts|
  {
    attempts == [] || (Enabled(g, attempts[0]) && Possible(Step(g, attempts[0]), attempts[1..]))
  }

  function Run(g: Guarded, attempts: seq<Attempt>): Guarded
    requires Possible(g, attempts)
    decreases |attempts|
  {
    if attempts == [] then g else Run(Step(g, attempts[0]), attempts[1..])
  }

  /** One goroutine at most, and while one runs the counter is zero. */
  predicate Tame(g: Guarded)
  {
    && 0 <= g.skip && g.skip + g.skipped <= 1
    && g.running == (if g.active then 1 else 0)
    && (g.active ==> g.skip == 0 && g.skipped == 0)
  }

  /** Under the guard the doubling never happens: at most one attempt is skipped per failure. */
  lemma {:induction false} AtMostOneSkip(g: Guarded, attempts: seq<Attempt>)
    requires Possible(g, attempts) && Tame(g)
    ensures Tame(Run(g, attempts))
    ensures Run(g, attempts).skip in {0, 1} && Run(g, attempts).skipped <= 1
    decreases |attempts|
  {
    if attempts != [] {
      AtMostOneSkip(Step(g, attempts[0]), attempts[1..]);
    }
  }

  const IDLE := Guarded(0, false, 0, 0)

  /** What an observer expects who sees attempts begin and end: a failure owes one skip, and nothing else does. */
  datatype Expected = Expected(active: bool, owed: bool)

  function Expect(x: Expected, a: Attempt): Expected
  {
    match a
    case Begin => if x.active then x else if x.owed then Expected(false, false) else Expected(true, false)
    case Finish(success) => Expected(false, !success)
  }

  function ExpectAll(x: Expected, attempts: seq<Attempt>): Expected
    decreases |attempts|
  {
    if attempts == [] then x else ExpectAll(Expect(x, attempts[0]), attempts[1..])
  }

  /**
   The counter is positive exactly while a skip is owed: the last attempt that finished
   failed, and no attempt has been skipped since.
   */
  lemma {:induction false} CounterIsOwed(g: Guarded, attempts: seq<Attempt>)
    requires Possible(g, attempts) && Tame(g)
    ensures var x := ExpectAll(Expected(g.active, g.skip > 0), attempts);
            Run(g, attempts).skip == (if x.owed then 1 else 0) && Run(g, attempts).active == x.active
    decreases |attempts|
  {
    if attempts != [] {
      CounterIsOwed(Step(g, attempts[0]), attempts[1..]);
    }
  }

  /** Attempts that found no other one running and still did not run. */
  function Skips(g: Guarded, attempts: seq<Attempt>): nat
    requires Possible(g, attempts)
    decreases |attempts|
  {
    if attempts == [] then 0
    else
      var g' := Step(g, attempts[0]);
      (if attempts[0].Begin? && !g.active && !g'.active then 1 else 0) + Skips(g', attempts[1..])
  }

  function Failures(attempts: seq<Attempt>): nat
  {
    if attempts == [] then 0 else (if attempts[0] == Finish(false) then 1 else 0) + Failures(attempts[1..])
  }

  /** Every failure is paid for with one skip, now or later, and nothing else is. */
  lemma {:induction false} SkipsPayForFailures(g: Guarded, attempts: seq<Attempt>)
    requires Possible(g, attempts) && Tame(g)
    ensures Skips(g, attempts) + Run(g, attempts).skip == g.skip + Failures(attempts)
    decreases |attempts|
  {
    if attempts != [] {
      SkipsPayForFailures(Step(g, attempts[0]), attempts[1..]);
    }
  }

  /** So from the start, skips never outnumber failures, nor fall behind by more than one. */
  lemma OneSkipPerFailure(attempts: seq<Attempt>)
    requires Possible(IDLE, attempts)
    ensures Skips(IDLE, attempts) <= Failures(attempts) <= Skips(IDLE, attempts) + 1
  {
    SkipsPayForFailures(IDLE, attempts);
    AtMostOneSkip(IDLE, attempts);
  }

  // ---------- without the guard ----------

  /** Failures in a row double the skips, up to eight. */
  lemma FailuresInARow()
    ensures After(0, OnFailure) == 1 && After(1, OnFailure) == 2 && After(2, OnFailure) == 4 && After(4, OnFailure) == 8
    ensures After(8, OnFailure) == 8
  {
  }

  /** A success clears whatever had built up, and so do as many skips. */
  lemma {:induction false} SkipsRunOut(skip: nat, calls: seq<Call>)
    requires |calls| >= skip && forall k :: 0 <= k < |calls| ==> calls[k] == ShouldSkip
    ensures RunCalls(skip, calls) == 0 && After(skip, OnSuccess) == 0
    decreases |calls|
  {
    if calls != [] {
      SkipsRunOut(if skip > 0 then skip - 1 else 0, calls[1..]);
    }
  }
}
