/** The shared memory of the pipeline's workers, and what they do to it under the mutex. */
module PipelineWorkers {
  import opened Wrappers
  import opened KtPipeline

  class Pipeline {
    const nSteps: nat
    var workers: seq<Worker>
    var index: nat
    ghost var entered: seq<seq<Visit>>
    ghost var returned: seq<seq<Visit>>

    ghost function Contents(): State
      reads this
    {
      State(nSteps, workers, index, entered, returned)
    }

    constructor (nThreads: int, nSteps: nat)
      ensures Init(Contents()) && this.nSteps == nSteps
      ensures |workers| == if nThreads < 1 then 1 else nThreads
    {
      var nWorkers := if nThreads < 1 then 1 else nThreads;
      var ws := [];
      var next := 0;
      var i := 0;
      while i < nWorkers
        invariant 0 <= i <= nWorkers && next == |ws| == i
        invariant forall k :: 0 <= k < i ==> ws[k] == Worker(0, k, None, Ready)
      {
        ws := ws + [Worker(0, next, None, Ready)];
        next := next + 1;
        i := i + 1;
      }
      this.nSteps := nSteps;
      workers := ws;
      index := next;
      entered := seq(nSteps, _ => []);
      returned := seq(nSteps, _ => []);
    }

    // The scan over the other workers, up to the first blocker.
    method Scan(me: nat) returns (clear: bool)
      requires me < |workers|
      ensures clear <==> !Blocked(Contents(), me)
    {
      var i := 0;
      while i < |workers|
        invariant 0 <= i <= |workers|
        invariant forall j :: 0 <= j < i && j != me ==> !Blocks(workers[j], workers[me])
      {
        if i != me {
          if workers[i].step <= workers[me].step {
            if workers[i].index < workers[me].index {
              break;
            }
          }
        }
        i := i + 1;
      }
      clear := i == |workers|;
      assert !clear ==> Blocks(Contents().workers[i], Contents().workers[me]);
    }

    // One pass under the mutex: go on to the step function, or wait.
    method AwaitTurn(me: nat) returns (clear: bool)
      requires Inv(Contents()) && me < |workers| && workers[me].step < nSteps && workers[me].phase == Ready
      modifies this
      ensures Inv(Contents()) && (clear <==> !Blocked(old(Contents()), me))
      ensures Contents() == if clear then EnterStep(old(Contents()), me) else FallAsleep(old(Contents()), me)
    {
      clear := Scan(me);
      var w := workers[me];
      ghost var s := Contents();
      if clear {
        EnterInv(s, me);
        workers := workers[me := w.(phase := Calling(if w.step > 0 then w.data else None))];
        entered := entered[w.step := entered[w.step] + [Visit(w.index, Argument(w))]];
      } else {
        SleepInv(s, me);
        workers := workers[me := w.(phase := Asleep)];
      }
    }

    // The pass under the mutex after the step function has returned.
    method Complete(me: nat, result: Data)
      requires Inv(Contents()) && me < |workers| && workers[me].step < nSteps && workers[me].phase.Calling?
      modifies this
      ensures Inv(Contents()) && Contents() == ReturnFrom(old(Contents()), me, result)
    {
      ghost var s := Contents();
      ReturnInv(s, me, result);
      ghost var w0 := workers[me];
      var w := workers[me].(data := result, phase := Ready);
      ghost var st := w.step;
      if w.step == nSteps - 1 {
        w := w.(step := (w.step + 1) % nSteps);
      } else if result.Some? {
        w := w.(step := (w.step + 1) % nSteps);
      } else {
        w := w.(step := nSteps);
      }
      if result.Some? {
        returned := returned[st := returned[st] + [Visit(w.index, result)]];
      }
      if w.step == 0 {
        w := w.(index := index);
        index := index + 1;
      }
      assert w == Returned(nSteps, s.index, w0, result);
      workers := Broadcast(workers[me := w]);
      assert Contents() == ReturnFrom(s, me, result);
    }
  }
}
