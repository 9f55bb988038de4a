/** Runs of the pipeline: order, no lost wake-up, termination, and who finishes when. */
module PipelineRuns {
  import opened Wrappers
  import opened Arithmetic
  import opened KtPipeline

  datatype Move = Move(worker: nat, action: Action)

  // A run from the initial state, under any schedule and with any results.
  ghost predicate IsRun(run: seq<State>, moves: seq<Move>) {
    && |run| == |moves| + 1 && Init(run[0])
    && forall n :: 0 <= n < |moves| ==>
         && moves[n].worker < |run[n].workers|
         && Enabled(run[n], moves[n].worker, moves[n].action)
         && run[n + 1] == Apply(run[n], moves[n].worker, moves[n].action)
  }

  lemma {:induction false} RunInv(run: seq<State>, moves: seq<Move>, n: nat)
    requires IsRun(run, moves) && n <= |moves|
    ensures Inv(run[n]) && run[n].nSteps == run[0].nSteps && |run[n].workers| == |run[0].workers|
  {
    if n == 0 {
      InitInv(run[0]);
    } else {
      RunInv(run, moves, n - 1);
      ApplyInv(run[n - 1], moves[n - 1].worker, moves[n - 1].action);
    }
  }

  // No two workers are ever in the same step; items enter every step in increasing order; and
  // what has entered a step is, with its data, a prefix of what the step before returned.
  lemma PipelineOrder(run: seq<State>, moves: seq<Move>)
    requires IsRun(run, moves)
    ensures var s := run[|moves|];
      && WellFormed(s)
      && (forall i, j :: 0 <= i < j < |s.workers| && s.workers[i].phase.Calling? && s.workers[j].phase.Calling? ==>
            s.workers[i].step != s.workers[j].step)
      && (forall st :: 0 <= st < s.nSteps ==> Increasing(s.entered[st]) && Increasing(s.returned[st]))
      && (forall st :: 0 < st < s.nSteps ==> s.entered[st] <= s.returned[st - 1])
  {
    RunInv(run, moves, |moves|);
    var s := run[|moves|];
    forall i, j | 0 <= i < j < |s.workers| && s.workers[i].phase.Calling? && s.workers[j].phase.Calling?
      ensures s.workers[i].step != s.workers[j].step
    {
      assert !Blocked(s, i) && !Blocked(s, j);
    }
    forall st | 0 < st < s.nSteps
      ensures s.entered[st] <= s.returned[st - 1]
    {
      assert Handed(s, st);
    }
  }

  // ---- waiting ----

  // The live worker with the earliest item.
  lemma {:induction false} EarliestLive(s: State, n: nat) returns (i: nat)
    requires n <= |s.workers| && exists j :: 0 <= j < n && Live(s, j)
    ensures i < n && Live(s, i)
    ensures forall j :: 0 <= j < n && Live(s, j) ==> s.workers[i].index <= s.workers[j].index
  {
    if Live(s, n - 1) {
      i := n - 1;
      if exists j :: 0 <= j < n - 1 && Live(s, j) {
        var k := EarliestLive(s, n - 1);
        if s.workers[k].index < s.workers[i].index {
          i := k;
        }
      }
    } else {
      i := EarliestLive(s, n - 1);
    }
  }

  predicate Progress(a: Action) {
    a.Enter? || a.Return?
  }

  // Nobody sleeps without a live worker on an earlier item; and unless all are finished, the
  // one on the earliest item is calling its step function or free to.
  lemma NoLostWakeUp(run: seq<State>, moves: seq<Move>)
    requires IsRun(run, moves)
    ensures var s := run[|moves|];
      && (forall i :: 0 <= i < |s.workers| && s.workers[i].phase == Asleep ==> Blocked(s, i))
      && ((exists j :: 0 <= j < |s.workers| && Live(s, j)) ==>
           exists i: nat, a: Action :: i < |s.workers| && Progress(a) && Enabled(s, i, a))
  {
    RunInv(run, moves, |moves|);
    var s := run[|moves|];
    if exists j :: 0 <= j < |s.workers| && Live(s, j) {
      var i := EarliestLive(s, |s.workers|);
      assert !Blocked(s, i);
      if s.workers[i].phase.Calling? {
        assert Enabled(s, i, Return(None)) && Progress(Return(None));
      } else {
        assert Enabled(s, i, Enter) && Progress(Enter);
      }
    }
  }

  // ---- termination ----

  function Rank(nSteps: nat, w: Worker): nat {
    if w.step >= nSteps then 0
    else (if w.step == 0 then 0 else 2 * (nSteps - w.step)) + (if w.phase.Calling? then 1 else 2)
  }

  function Ranks(nSteps: nat, ws: seq<Worker>): nat {
    if |ws| == 0 then 0 else Ranks(nSteps, ws[..|ws| - 1]) + Rank(nSteps, ws[|ws| - 1])
  }

  // What is left to do when the first step returns data at most limit times.
  ghost function Measure(s: State, limit: nat): int
    requires WellFormed(s) && 0 < s.nSteps
  {
    2 * s.nSteps * (limit - |s.returned[0]|) + Ranks(s.nSteps, s.workers)
  }

  lemma {:induction false} RanksDiffer(nSteps: nat, ws: seq<Worker>, vs: seq<Worker>, i: nat)
    requires |ws| == |vs| && i < |ws|
    requires forall j :: 0 <= j < |ws| && j != i ==> Rank(nSteps, ws[j]) == Rank(nSteps, vs[j])
    ensures Ranks(nSteps, vs) - Ranks(nSteps, ws) == Rank(nSteps, vs[i]) - Rank(nSteps, ws[i])
  {
    var n := |ws| - 1;
    if i < n {
      RanksDiffer(nSteps, ws[..n], vs[..n], i);
    } else {
      RanksEqual(nSteps, ws[..n], vs[..n]);
    }
  }

  lemma {:induction false} RanksEqual(nSteps: nat, ws: seq<Worker>, vs: seq<Worker>)
    requires |ws| == |vs|
    requires forall j :: 0 <= j < |ws| ==> Rank(nSteps, ws[j]) == Rank(nSteps, vs[j])
    ensures Ranks(nSteps, ws) == Ranks(nSteps, vs)
  {
    if |ws| > 0 {
      RanksEqual(nSteps, ws[..|ws| - 1], vs[..|vs| - 1]);
    }
  }

  // Returning costs the worker rank, unless the source has just yielded another item.
  lemma ReturnRank(nSteps: nat, w: Worker, w': Worker, result: Data)
    requires 2 <= nSteps && w.step < nSteps && w.phase.Calling?
    requires w'.step == NextStep(nSteps, w.step, result) && w'.phase == Ready
    ensures Rank(nSteps, w') <= Rank(nSteps, w) - 1 + (if w.step == 0 && result.Some? then 2 * nSteps else 0)
  {
  }

  lemma ReturnDrops(s: State, i: nat, result: Data, limit: nat)
    requires WellFormed(s) && i < |s.workers| && Enabled(s, i, Return(result)) && 2 <= s.nSteps
    ensures Measure(ReturnFrom(s, i, result), limit) <= Measure(s, limit) - 1
  {
    var t, w := ReturnFrom(s, i, result), s.workers[i];
    RanksDiffer(s.nSteps, s.workers, t.workers, i);
    ReturnRank(s.nSteps, w, t.workers[i], result);
    assert limit - |t.returned[0]| == limit - |s.returned[0]| - (if w.step == 0 && result.Some? then 1 else 0);
    TimesOneLess(2 * s.nSteps, limit - |s.returned[0]|);
  }

  // Each entry and each return uses up work; sleeping and waking do not.
  lemma MeasureDrops(s: State, i: nat, a: Action, limit: nat)
    requires WellFormed(s) && i < |s.workers| && Enabled(s, i, a) && 2 <= s.nSteps
    ensures var t := Apply(s, i, a);
      WellFormed(t) && t.nSteps == s.nSteps &&
      Measure(t, limit) <= Measure(s, limit) - (if Progress(a) then 1 else 0)
  {
    if a.Return? {
      ReturnDrops(s, i, a.result, limit);
    } else {
      RanksDiffer(s.nSteps, s.workers, Apply(s, i, a).workers, i);
    }
  }

  function ProgressMoves(moves: seq<Move>): nat {
    if |moves| == 0 then 0
    else ProgressMoves(moves[..|moves| - 1]) + (if Progress(moves[|moves| - 1].action) then 1 else 0)
  }

  lemma {:induction false} ProgressIsBounded(run: seq<State>, moves: seq<Move>, limit: nat)
    requires IsRun(run, moves) && 2 <= run[0].nSteps
    ensures WellFormed(run[|moves|]) && run[|moves|].nSteps == run[0].nSteps
    ensures ProgressMoves(moves) + Measure(run[|moves|], limit) <= Measure(run[0], limit)
    decreases |moves|
  {
    var n := |moves|;
    RunInv(run, moves, n);
    if n > 0 {
      ProgressIsBounded(run[..n], moves[..n - 1], limit);
      RunInv(run, moves, n - 1);
      MeasureDrops(run[n - 1], moves[n - 1].worker, moves[n - 1].action, limit);
    }
  }

  lemma MeasureNonNegative(s: State, limit: nat)
    requires WellFormed(s) && 0 < s.nSteps && |s.returned[0]| <= limit
    ensures Measure(s, limit) >= 0
  {
    assert s.nSteps * (limit - |s.returned[0]|) >= 0;
  }

  // With two or more steps and a source that yields at most limit items, a run has only so
  // many entries and returns.
  lemma PipelineFinishes(run: seq<State>, moves: seq<Move>, limit: nat)
    requires IsRun(run, moves) && 2 <= run[0].nSteps
    requires WellFormed(run[|moves|]) && run[|moves|].nSteps == run[0].nSteps && |run[|moves|].returned[0]| <= limit
    ensures ProgressMoves(moves) <= 2 * run[0].nSteps * limit + 2 * |run[0].workers|
  {
    ProgressIsBounded(run, moves, limit);
    InitialMeasure(run[0], limit);
    MeasureNonNegative(run[|moves|], limit);
  }

  // And a run in which no entry or return is possible any more has finished all workers, with
  // everything a step returned taken over by the next.
  lemma StuckMeansFinished(run: seq<State>, moves: seq<Move>)
    requires IsRun(run, moves)
    requires forall i: nat, a: Action :: i < |run[|moves|].workers| && Progress(a) ==> !Enabled(run[|moves|], i, a)
    ensures var s := run[|moves|];
      && WellFormed(s)
      && (forall i :: 0 <= i < |s.workers| ==> !Live(s, i))
      && (forall st :: 0 < st < s.nSteps ==> s.entered[st] == s.returned[st - 1])
  {
    NoLostWakeUp(run, moves);
    RunInv(run, moves, |moves|);
    var s := run[|moves|];
    forall st | 0 < st < s.nSteps
      ensures s.entered[st] == s.returned[st - 1]
    {
      AllTakenOver(s, st);
    }
  }

  lemma AllTakenOver(s: State, st: nat)
    requires WellFormed(s) && 0 < st < s.nSteps && Handed(s, st)
    requires forall i :: 0 <= i < |s.workers| ==> !Live(s, i)
    ensures s.entered[st] == s.returned[st - 1]
  {
    var given, taken := s.returned[st - 1], s.entered[st];
    if |taken| < |given| {
      assert Carried(s, st, given[|taken|]);
      var j :| 0 <= j < |s.workers| && Carries(s, j, st, given[|taken|]);
      assert Live(s, j);
    }
  }

  lemma InitialMeasure(s: State, limit: nat)
    requires Init(s) && 0 < s.nSteps
    ensures Measure(s, limit) == 2 * s.nSteps * limit + 2 * |s.workers|
  {
    InitialRanks(s.nSteps, s.workers);
  }

  lemma {:induction false} InitialRanks(nSteps: nat, ws: seq<Worker>)
    requires 0 < nSteps && forall i :: 0 <= i < |ws| ==> ws[i].step == 0 && ws[i].phase == Ready
    ensures Ranks(nSteps, ws) == 2 * |ws|
  {
    if |ws| > 0 {
      InitialRanks(nSteps, ws[..|ws| - 1]);
    }
  }

  // ---- who finishes ----

  // Step n ends worker i: a step function before the last returned no data.
  ghost predicate EndedBy(run: seq<State>, moves: seq<Move>, n: nat, i: nat)
    requires n < |moves| && n < |run| && i < |run[n].workers|
  {
    moves[n] == Move(i, Return(None)) && run[n].workers[i].step + 1 < run[n].nSteps
  }

  // With two or more steps a worker has finished exactly when one of its step functions before
  // the last has returned no data.
  lemma {:induction false} FinishedExactly(run: seq<State>, moves: seq<Move>, m: nat, i: nat)
    requires IsRun(run, moves) && 2 <= run[0].nSteps && m <= |moves| && i < |run[0].workers|
    ensures |run[m].workers| == |run[0].workers|
    ensures !Live(run[m], i) <==>
      exists n: nat :: n < m && i < |run[n].workers| && EndedBy(run, moves, n, i)
  {
    RunInv(run, moves, m);
    if m > 0 {
      FinishedExactly(run, moves, m - 1, i);
      RunInv(run, moves, m - 1);
      OneMove(run[m - 1], moves[m - 1].worker, moves[m - 1].action, i);
      assert Live(run[m - 1], i) && !Live(run[m], i) ==> EndedBy(run, moves, m - 1, i);
      assert EndedBy(run, moves, m - 1, i) ==> !Live(run[m], i);
    }
  }

  lemma OneMove(s: State, w: nat, a: Action, i: nat)
    requires Inv(s) && w < |s.workers| && Enabled(s, w, a) && i < |s.workers| && 2 <= s.nSteps
    ensures var t := Apply(s, w, a);
      && |t.workers| == |s.workers| && t.nSteps == s.nSteps
      && (!Live(t, i) <==> !Live(s, i) || (w == i && a == Return(None) && s.workers[i].step + 1 < s.nSteps))
  {
  }

  // So when all workers have finished and the steps in between have passed on all data, the
  // source has come to its end for every one of them.
  lemma SourceDrained(run: seq<State>, moves: seq<Move>, i: nat)
    requires IsRun(run, moves) && 2 <= run[0].nSteps && i < |run[0].workers|
    requires i < |run[|moves|].workers| && !Live(run[|moves|], i)
    requires forall n: nat :: n < |moves| && i < |run[n].workers| && moves[n] == Move(i, Return(None)) ==>
      run[n].workers[i].step == 0 || run[n].workers[i].step == run[n].nSteps - 1
    ensures exists n: nat :: n < |moves| && i < |run[n].workers| && moves[n] == Move(i, Return(None)) && run[n].workers[i].step == 0
  {
    FinishedExactly(run, moves, |moves|, i);
    var n: nat :| n < |moves| && i < |run[n].workers| && EndedBy(run, moves, n, i);
    assert moves[n] == Move(i, Return(None));
  }

  // With a single step the first step is also the last, where a null result is not looked at:
  // whatever the source returns, no worker ever finishes.
  lemma {:induction false} OneStepNeverFinishes(run: seq<State>, moves: seq<Move>)
    requires IsRun(run, moves) && run[0].nSteps == 1
    ensures forall i :: 0 <= i < |run[|moves|].workers| ==> Live(run[|moves|], i)
    decreases |moves|
  {
    var n := |moves|;
    if n > 0 {
      OneStepNeverFinishes(run[..n], moves[..n - 1]);
      RunInv(run, moves, n - 1);
      RunInv(run, moves, n);
      var i, t := moves[n - 1].worker, Apply(run[n - 1], moves[n - 1].worker, moves[n - 1].action);
      forall j | 0 <= j < |t.workers|
        ensures t.workers[j].step == 0
      {
        assert Live(run[n - 1], j);
      }
    }
  }
}
