/** The first step of the pipeline in its runs: the numbering of the items, and items that are
    in different steps at once. */
module PipelineSource {
  import opened Wrappers
  import opened KtPipeline
  import opened PipelineRuns

  // ---- the source ----

  // The items that have entered the first step are numbered from 0 on and come with no data;
  // the numbers given out beyond are those of the workers about to enter it.
  ghost predicate Numbered(s: State)
    requires WellFormed(s) && 0 < s.nSteps
  {
    && |s.entered[0]| <= s.index
    && (forall k :: 0 <= k < |s.entered[0]| ==> s.entered[0][k] == Visit(k, None))
    && (forall j :: 0 <= j < |s.workers| && Waits(s.workers[j]) ==> |s.entered[0]| <= s.workers[j].index)
    && (forall x :: |s.entered[0]| <= x < s.index ==> Held(s, x))
  }

  predicate Waits(w: Worker) {
    w.step == 0 && !w.phase.Calling?
  }

  ghost predicate Held(s: State, x: int) {
    exists j :: 0 <= j < |s.workers| && Waits(s.workers[j]) && s.workers[j].index == x
  }

  lemma EnterNumbered(s: State, i: nat)
    requires Inv(s) && i < |s.workers| && Enabled(s, i, Enter) && Numbered(s)
    ensures Numbered(EnterStep(s, i))
  {
    var t, w, first := EnterStep(s, i), s.workers[i], |s.entered[0]|;
    if w.step == 0 {
      if first < w.index {
        assert Held(s, first);
        var j :| 0 <= j < |s.workers| && Waits(s.workers[j]) && s.workers[j].index == first;
        assert Blocks(s.workers[j], w);
      }
      assert w.index == first;
    }
    forall x | |t.entered[0]| <= x < t.index
      ensures Held(t, x)
    {
      assert Held(s, x);
      var j :| 0 <= j < |s.workers| && Waits(s.workers[j]) && s.workers[j].index == x;
      assert t.workers[j].index == x && (j != i || w.step != 0);
      assert Waits(t.workers[j]);
    }
  }

  lemma ReturnNumbered(s: State, i: nat, result: Data)
    requires Inv(s) && i < |s.workers| && Enabled(s, i, Return(result)) && Numbered(s)
    ensures Numbered(ReturnFrom(s, i, result))
  {
    var t := ReturnFrom(s, i, result);
    forall x | |t.entered[0]| <= x < t.index
      ensures Held(t, x)
    {
      if x < s.index {
        assert Held(s, x);
        var j :| 0 <= j < |s.workers| && Waits(s.workers[j]) && s.workers[j].index == x;
        assert j != i && Waits(t.workers[j]) && t.workers[j].index == x;
      } else {
        assert Waits(t.workers[i]) && t.workers[i].index == x;
      }
    }
  }

  lemma SleepNumbered(s: State, t: State)
    requires WellFormed(s) && 0 < s.nSteps && Numbered(s)
    requires t.nSteps == s.nSteps && t.entered == s.entered && t.returned == s.returned && t.index == s.index
    requires |t.workers| == |s.workers|
    requires forall j :: 0 <= j < |s.workers| ==>
      t.workers[j].index == s.workers[j].index && Waits(t.workers[j]) == Waits(s.workers[j])
    ensures Numbered(t)
  {
    forall x | |t.entered[0]| <= x < t.index
      ensures Held(t, x)
    {
      assert Held(s, x);
      var j :| 0 <= j < |s.workers| && Waits(s.workers[j]) && s.workers[j].index == x;
      assert Waits(t.workers[j]) && t.workers[j].index == x;
    }
  }

  // In every run the items enter the first step in the order of their numbers, none left out.
  lemma {:induction false} SourceOrder(run: seq<State>, moves: seq<Move>, n: nat)
    requires IsRun(run, moves) && n <= |moves| && 0 < run[0].nSteps
    ensures WellFormed(run[n]) && run[n].nSteps == run[0].nSteps && Numbered(run[n])
  {
    RunInv(run, moves, n);
    if n == 0 {
      forall x | 0 <= x < run[0].index
        ensures Held(run[0], x)
      {
        assert Waits(run[0].workers[x]) && run[0].workers[x].index == x;
      }
    } else {
      RunInv(run, moves, n - 1);
      SourceOrder(run, moves, n - 1);
      var s, i := run[n - 1], moves[n - 1].worker;
      match moves[n - 1].action
      case Enter => EnterNumbered(s, i);
      case Return(result) => ReturnNumbered(s, i, result);
      case Sleep => SleepNumbered(s, run[n]);
      case Wake => SleepNumbered(s, run[n]);
    }
  }

  // ---- overlapping ----

  lemma RunGoesOn(run: seq<State>, moves: seq<Move>, w: nat, a: Action)
    requires IsRun(run, moves)
    requires w < |run[|moves|].workers| && Enabled(run[|moves|], w, a)
    ensures IsRun(run + [Apply(run[|moves|], w, a)], moves + [Move(w, a)])
  {
    var longer := run + [Apply(run[|moves|], w, a)];
    assert forall n :: 0 <= n <= |moves| ==> longer[n] == run[n];
  }

  // The second item waits at the start of the first step, the first one has left it.
  ghost predicate FirstAhead(s: State, phase: Phase) {
    && WellFormed(s) && 2 <= s.nSteps && 2 <= |s.workers|
    && (forall j :: 1 <= j < |s.workers| ==> s.workers[j] == Worker(0, j, None, Ready))
    && s.workers[0].step == 1 && s.workers[0].index == 0 && s.workers[0].phase == phase
  }

  lemma FirstGoesAhead(s: State) returns (t: State, u: State)
    requires Init(s) && 2 <= s.nSteps && 2 <= |s.workers|
    ensures Enabled(s, 0, Enter) && t == Apply(s, 0, Enter)
    ensures 0 < |t.workers| && Enabled(t, 0, Return(Some(0))) && u == Apply(t, 0, Return(Some(0)))
    ensures FirstAhead(u, Ready)
  {
    t := EnterStep(s, 0);
    u := ReturnFrom(t, 0, Some(0));
    forall j | 1 <= j < |s.workers|
      ensures u.workers[j] == Worker(0, j, None, Ready)
    {
      assert s.workers[j] == Worker(0, j, None, Ready) && t.workers[j] == s.workers[j];
    }
  }

  lemma SecondFollows(s: State)
    requires FirstAhead(s, Ready)
    ensures Enabled(s, 0, Enter) && FirstAhead(Apply(s, 0, Enter), Calling(s.workers[0].data))
    ensures Enabled(Apply(s, 0, Enter), 1, Enter)
  {
  }

  // With two steps and two workers, the second item may be in the first step while the first
  // item is in the second.
  lemma StepsOverlap(s: State) returns (run: seq<State>, moves: seq<Move>)
    requires Init(s) && 2 <= s.nSteps && 2 <= |s.workers|
    ensures IsRun(run, moves) && run[0] == s
    ensures var t := run[|moves|];
      |t.workers| == |s.workers|
      && t.workers[0].step == 1 && t.workers[0].phase.Calling? && t.workers[1].step == 0 && t.workers[1].phase.Calling?
  {
    var t, u := FirstGoesAhead(s);
    RunGoesOn([s], [], 0, Enter);
    RunGoesOn([s] + [t], [] + [Move(0, Enter)], 0, Return(Some(0)));
    run, moves := [s] + [t] + [u], [] + [Move(0, Enter)] + [Move(0, Return(Some(0)))];
    SecondFollows(u);
    RunGoesOn(run, moves, 0, Enter);
    run, moves := run + [Apply(u, 0, Enter)], moves + [Move(0, Enter)];
    RunGoesOn(run, moves, 1, Enter);
    run, moves := run + [Apply(Apply(u, 0, Enter), 1, Enter)], moves + [Move(1, Enter)];
  }
}
