/** The ordered multi-stage pipeline: one mutex, one condition variable, any number of workers.
    A state is what the mutex protects, with a log of which items entered and left each step;
    a transition is one critical section, or a wake-up (which may be spurious). */
module KtPipeline {
  import opened Wrappers

  // The data pointer passed from step to step; None is the null pointer.
  type Data = Option<int>

  datatype Phase = Ready | Asleep | Calling(arg: Data)

  datatype Worker = Worker(step: nat, index: nat, data: Data, phase: Phase)

  // One item at one step: its index and the data it carries.
  datatype Visit = Visit(index: nat, data: Data)

  datatype State = State(
    nSteps: nat, workers: seq<Worker>, index: nat, entered: seq<seq<Visit>>, returned: seq<seq<Visit>>)

  predicate Live(s: State, i: nat)
    requires i < |s.workers|
  {
    s.workers[i].step < s.nSteps
  }

  // Worker a is working on an earlier item that has not got further than b.
  predicate Blocks(a: Worker, b: Worker) {
    a.step <= b.step && a.index < b.index
  }

  predicate Blocked(s: State, i: nat)
    requires i < |s.workers|
  {
    exists j :: 0 <= j < |s.workers| && j != i && Blocks(s.workers[j], s.workers[i])
  }

  function Argument(w: Worker): Data {
    if w.step > 0 then w.data else None
  }

  // Worker i finds no blocker and goes on to call the step function.
  function EnterStep(s: State, i: nat): State
    requires i < |s.workers| && |s.entered| == s.nSteps && Live(s, i)
  {
    var w := s.workers[i];
    s.(workers := s.workers[i := w.(phase := Calling(Argument(w)))],
       entered := s.entered[w.step := s.entered[w.step] + [Visit(w.index, Argument(w))]])
  }

  // Worker i finds a blocker and waits on the condition variable.
  function FallAsleep(s: State, i: nat): State
    requires i < |s.workers|
  {
    s.(workers := s.workers[i := s.workers[i].(phase := Asleep)])
  }

  function Awake(w: Worker): Worker {
    if w.phase == Asleep then w.(phase := Ready) else w
  }

  function WakeUp(s: State, i: nat): State
    requires i < |s.workers|
  {
    s.(workers := s.workers[i := Awake(s.workers[i])])
  }

  function NextStep(nSteps: nat, step: nat, result: Data): nat
    requires step < nSteps
  {
    if step == nSteps - 1 then (step + 1) % nSteps
    else if result.Some? then (step + 1) % nSteps
    else nSteps
  }

  function Broadcast(ws: seq<Worker>): seq<Worker> {
    seq(|ws|, j requires 0 <= j < |ws| => Awake(ws[j]))
  }

  // The step function of worker i has returned: move to the next step, take a new item index
  // at step 0, and wake everyone.
  function ReturnFrom(s: State, i: nat, result: Data): State
    requires i < |s.workers| && |s.returned| == s.nSteps && Live(s, i)
  {
    var w := s.workers[i];
    var w' := Returned(s.nSteps, s.index, w, result);
    State(s.nSteps,
          Broadcast(s.workers[i := w']),
          if w'.step == 0 then s.index + 1 else s.index,
          s.entered,
          if result.Some? then s.returned[w.step := s.returned[w.step] + [Visit(w.index, result)]] else s.returned)
  }

  function Returned(nSteps: nat, index: nat, w: Worker, result: Data): Worker
    requires w.step < nSteps
  {
    var step := NextStep(nSteps, w.step, result);
    Worker(step, if step == 0 then index else w.index, result, Ready)
  }

  ghost predicate Init(s: State) {
    && 0 < |s.workers| == s.index
    && (forall i :: 0 <= i < |s.workers| ==> s.workers[i] == Worker(0, i, None, Ready))
    && s.entered == s.returned == seq(s.nSteps, _ => [])
  }

  datatype Action = Enter | Sleep | Wake | Return(result: Data)

  ghost predicate WellFormed(s: State) {
    |s.entered| == |s.returned| == s.nSteps
  }

  ghost predicate Enabled(s: State, i: nat, a: Action)
    requires i < |s.workers|
  {
    && WellFormed(s) && Live(s, i)
    && match a
       case Enter => s.workers[i].phase == Ready && !Blocked(s, i)
       case Sleep => s.workers[i].phase == Ready && Blocked(s, i)
       case Wake => s.workers[i].phase == Asleep
       case Return(_) => s.workers[i].phase.Calling?
  }

  ghost function Apply(s: State, i: nat, a: Action): State
    requires i < |s.workers| && Enabled(s, i, a)
  {
    match a
    case Enter => EnterStep(s, i)
    case Sleep => FallAsleep(s, i)
    case Wake => WakeUp(s, i)
    case Return(result) => ReturnFrom(s, i, result)
  }

  ghost predicate Increasing(vs: seq<Visit>) {
    forall k, l :: 0 <= k < l < |vs| ==> vs[k].index < vs[l].index
  }

  ghost predicate Indices(s: State) {
    && (forall i :: 0 <= i < |s.workers| ==> s.workers[i].index < s.index && s.workers[i].step <= s.nSteps)
    && (forall i, j :: 0 <= i < j < |s.workers| ==> s.workers[i].index != s.workers[j].index)
  }

  ghost predicate Phases(s: State) {
    forall i :: 0 <= i < |s.workers| ==>
      match s.workers[i].phase
      case Ready => true
      case Asleep => Live(s, i) && Blocked(s, i)
      case Calling(arg) => Live(s, i) && !Blocked(s, i) && arg == Argument(s.workers[i])
  }

  // Once an item has entered a step, no worker still has an earlier item at or before it.
  ghost predicate PassedEntry(s: State, st: nat, v: Visit) {
    && v.index < s.index
    && forall j :: 0 <= j < |s.workers| ==>
         var w := s.workers[j];
         && (w.index < v.index ==> st < w.step)
         && (w.index == v.index ==> st < w.step || (st == w.step && w.phase.Calling?))
  }

  // Once it has left with data, not even its own worker is there.
  ghost predicate PassedReturn(s: State, st: nat, v: Visit) {
    && v.index < s.index
    && forall j :: 0 <= j < |s.workers| && s.workers[j].index <= v.index ==> st < s.workers[j].step
  }

  ghost predicate Logs(s: State)
    requires WellFormed(s)
  {
    forall st :: 0 <= st < s.nSteps ==>
      && Increasing(s.entered[st]) && Increasing(s.returned[st])
      && (forall k :: 0 <= k < |s.entered[st]| ==> PassedEntry(s, st, s.entered[st][k]))
      && (forall k :: 0 <= k < |s.returned[st]| ==> PassedReturn(s, st, s.returned[st][k]))
  }

  // Worker j is about to enter step st with the item and data of visit v.
  ghost predicate Carries(s: State, j: nat, st: nat, v: Visit)
    requires j < |s.workers|
  {
    var w := s.workers[j];
    w.step == st && !w.phase.Calling? && w.index == v.index && w.data == v.data
  }

  ghost predicate Carried(s: State, st: nat, v: Visit) {
    exists j :: 0 <= j < |s.workers| && Carries(s, j, st, v)
  }

  ghost predicate Pending(s: State, j: nat, st: nat, given: seq<Visit>, from: nat)
    requires j < |s.workers|
  {
    exists k :: from <= k < |given| && Carries(s, j, st, given[k])
  }

  // What has entered step st is a prefix of what step st - 1 returned; the rest is carried by
  // the workers waiting to enter st.
  ghost predicate Handed(s: State, st: nat)
    requires WellFormed(s) && 0 < st < s.nSteps
  {
    var given, taken := s.returned[st - 1], s.entered[st];
    && taken <= given
    && (forall k :: |taken| <= k < |given| ==> Carried(s, st, given[k]))
    && (forall j :: 0 <= j < |s.workers| && s.workers[j].step == st && !s.workers[j].phase.Calling? ==>
          Pending(s, j, st, given, |taken|))
  }

  ghost predicate Handover(s: State)
    requires WellFormed(s)
  {
    forall st :: 0 < st < s.nSteps ==> Handed(s, st)
  }

  ghost predicate Inv(s: State) {
    && WellFormed(s) && 0 < |s.workers|
    && Indices(s) && Phases(s) && Logs(s) && Handover(s)
  }

  lemma InitInv(s: State)
    requires Init(s)
    ensures Inv(s)
  {
  }

  // A worker that is not blocked stays so: others only move on, or take later items.
  lemma NewBlockersNever(s: State, i: nat, result: Data, k: nat)
    requires Indices(s) && i < |s.workers| && Enabled(s, i, Return(result))
    requires k < |s.workers| && k != i && !Blocked(s, k)
    ensures !Blocked(ReturnFrom(s, i, result), k)
  {
    var t := ReturnFrom(s, i, result);
    assert s.workers[k].index < s.index;
    forall j | 0 <= j < |t.workers| && j != k
      ensures !Blocks(t.workers[j], t.workers[k])
    {
      assert !Blocks(s.workers[j], s.workers[k]);
    }
  }

  lemma SleepInv(s: State, i: nat)
    requires Inv(s) && i < |s.workers| && Enabled(s, i, Sleep)
    ensures Inv(FallAsleep(s, i))
  {
    QuietInv(s, FallAsleep(s, i), i, Asleep);
  }

  lemma WakeInv(s: State, i: nat)
    requires Inv(s) && i < |s.workers| && Enabled(s, i, Wake)
    ensures Inv(WakeUp(s, i))
  {
    QuietInv(s, WakeUp(s, i), i, Ready);
  }

  // Falling asleep on a blocker and waking change nothing the invariant speaks about.
  lemma QuietInv(s: State, t: State, i: nat, phase: Phase)
    requires Inv(s) && i < |s.workers| && !s.workers[i].phase.Calling?
    requires !phase.Calling? && (phase == Asleep ==> Live(s, i) && Blocked(s, i))
    requires t == s.(workers := s.workers[i := s.workers[i].(phase := phase)])
    ensures Inv(t)
  {
    forall k | 0 <= k < |s.workers|
      ensures Blocked(t, k) <==> Blocked(s, k)
    {
      if Blocked(s, k) {
        var j :| 0 <= j < |s.workers| && j != k && Blocks(s.workers[j], s.workers[k]);
        assert Blocks(t.workers[j], t.workers[k]);
      }
      if Blocked(t, k) {
        var j :| 0 <= j < |t.workers| && j != k && Blocks(t.workers[j], t.workers[k]);
        assert Blocks(s.workers[j], s.workers[k]);
      }
    }
    forall st | 0 <= st < s.nSteps
      ensures Increasing(t.entered[st]) && Increasing(t.returned[st])
      ensures forall k :: 0 <= k < |t.entered[st]| ==> PassedEntry(t, st, t.entered[st][k])
      ensures forall k :: 0 <= k < |t.returned[st]| ==> PassedReturn(t, st, t.returned[st][k])
    {
      forall k | 0 <= k < |t.entered[st]|
        ensures PassedEntry(t, st, t.entered[st][k])
      {
        assert PassedEntry(s, st, s.entered[st][k]);
      }
      forall k | 0 <= k < |t.returned[st]|
        ensures PassedReturn(t, st, t.returned[st][k])
      {
        assert PassedReturn(s, st, s.returned[st][k]);
      }
    }
    forall st | 0 < st < s.nSteps
      ensures Handed(t, st)
    {
      assert Handed(s, st);
      KeepsHanded(s, t, st);
    }
  }

  // If either waits to enter st, both do, with the same item.
  predicate SameWaiting(a: Worker, b: Worker, st: nat) {
    if a.step == st && !a.phase.Calling? then
      b.step == st && !b.phase.Calling? && a.index == b.index && a.data == b.data
    else
      b.step != st || b.phase.Calling?
  }

  // Handing over is untouched when the logs of the step are, and the workers carry the same.
  lemma KeepsHanded(s: State, t: State, st: nat)
    requires WellFormed(s) && WellFormed(t) && s.nSteps == t.nSteps && 0 < st < s.nSteps
    requires |s.workers| == |t.workers| && Handed(s, st)
    requires s.entered[st] == t.entered[st] && s.returned[st - 1] == t.returned[st - 1]
    requires forall j :: 0 <= j < |s.workers| ==> SameWaiting(s.workers[j], t.workers[j], st)
    ensures Handed(t, st)
  {
    var given, taken := s.returned[st - 1], s.entered[st];
    forall k | |taken| <= k < |given|
      ensures Carried(t, st, given[k])
    {
      assert Carried(s, st, given[k]);
      var j :| 0 <= j < |s.workers| && Carries(s, j, st, given[k]);
      assert Carries(t, j, st, given[k]);
    }
    forall j | 0 <= j < |t.workers| && t.workers[j].step == st && !t.workers[j].phase.Calling?
      ensures Pending(t, j, st, given, |taken|)
    {
      assert Pending(s, j, st, given, |taken|);
      var k :| |taken| <= k < |given| && Carries(s, j, st, given[k]);
      assert Carries(t, j, st, given[k]);
    }
  }

  // The worker that enters a later step does so with the first visit still to be taken over.
  lemma EntersInOrder(s: State, i: nat)
    requires Inv(s) && i < |s.workers| && Enabled(s, i, Enter) && 0 < s.workers[i].step
    ensures var w := s.workers[i]; var given, taken := s.returned[w.step - 1], s.entered[w.step];
      |taken| < |given| && given[|taken|] == Visit(w.index, w.data)
  {
    var w := s.workers[i];
    var st := w.step;
    var given, taken := s.returned[st - 1], s.entered[st];
    assert Handed(s, st);
    assert Pending(s, i, st, given, |taken|);
    var k :| |taken| <= k < |given| && Carries(s, i, st, given[k]);
    assert Carried(s, st, given[|taken|]);
    var j :| 0 <= j < |s.workers| && Carries(s, j, st, given[|taken|]);
    assert j != i ==> !Blocks(s.workers[j], w);
    assert Increasing(given);
  }

  lemma EnterHanded(s: State, i: nat)
    requires Inv(s) && i < |s.workers| && Enabled(s, i, Enter) && 0 < s.workers[i].step
    ensures Handed(EnterStep(s, i), s.workers[i].step)
  {
    var t, w := EnterStep(s, i), s.workers[i];
    var st := w.step;
    var given, taken := s.returned[st - 1], s.entered[st];
    EntersInOrder(s, i);
    assert Handed(s, st) && Increasing(given);
    forall k | |taken| + 1 <= k < |given|
      ensures Carried(t, st, given[k])
    {
      assert Carried(s, st, given[k]);
      var j :| 0 <= j < |s.workers| && Carries(s, j, st, given[k]);
      assert Carries(t, j, st, given[k]);
    }
    forall j | 0 <= j < |t.workers| && t.workers[j].step == st && !t.workers[j].phase.Calling?
      ensures Pending(t, j, st, given, |taken| + 1)
    {
      assert Pending(s, j, st, given, |taken|);
      var k :| |taken| <= k < |given| && Carries(s, j, st, given[k]);
      assert Carries(t, j, st, given[k]);
    }
  }

  lemma EnterInv(s: State, i: nat)
    requires Inv(s) && i < |s.workers| && Enabled(s, i, Enter)
    ensures Inv(EnterStep(s, i))
  {
    var t, w := EnterStep(s, i), s.workers[i];
    SameBlockers(s, t);
    forall st | 0 <= st < s.nSteps
      ensures Increasing(t.entered[st]) && Increasing(t.returned[st])
      ensures forall k :: 0 <= k < |t.entered[st]| ==> PassedEntry(t, st, t.entered[st][k])
      ensures forall k :: 0 <= k < |t.returned[st]| ==> PassedReturn(t, st, t.returned[st][k])
    {
      forall k | 0 <= k < |s.entered[st]|
        ensures PassedEntry(t, st, s.entered[st][k])
        ensures st == w.step ==> s.entered[st][k].index < w.index
      {
        assert PassedEntry(s, st, s.entered[st][k]);
      }
      forall k | 0 <= k < |t.returned[st]|
        ensures PassedReturn(t, st, t.returned[st][k])
      {
        assert PassedReturn(s, st, s.returned[st][k]);
      }
      if st == w.step {
        assert PassedEntry(t, st, Visit(w.index, Argument(w))) by {
          assert forall j :: 0 <= j < |s.workers| && j != i ==> !Blocks(s.workers[j], w);
        }
      }
    }
    forall st | 0 < st < s.nSteps
      ensures Handed(t, st)
    {
      assert Handed(s, st);
      if st == w.step {
        EnterHanded(s, i);
      } else {
        KeepsHanded(s, t, st);
      }
    }
  }

  // Blocking depends only on steps and indices.
  lemma SameBlockers(s: State, t: State)
    requires |s.workers| == |t.workers|
    requires forall j :: 0 <= j < |s.workers| ==>
      s.workers[j].step == t.workers[j].step && s.workers[j].index == t.workers[j].index
    ensures forall k :: 0 <= k < |s.workers| ==> (Blocked(t, k) <==> Blocked(s, k))
  {
    forall j, k | 0 <= j < |s.workers| && 0 <= k < |s.workers|
      ensures Blocks(t.workers[j], t.workers[k]) <==> Blocks(s.workers[j], s.workers[k])
    {
    }
  }

  lemma ReturnPhases(s: State, i: nat, result: Data)
    requires Inv(s) && i < |s.workers| && Enabled(s, i, Return(result))
    ensures Indices(ReturnFrom(s, i, result)) && Phases(ReturnFrom(s, i, result))
  {
    var t := ReturnFrom(s, i, result);
    forall k | 0 <= k < |t.workers| && t.workers[k].phase.Calling?
      ensures Live(t, k) && !Blocked(t, k) && t.workers[k].phase.arg == Argument(t.workers[k])
    {
      NewBlockersNever(s, i, result, k);
    }
  }

  // What a return does to each worker, as far as the logs are concerned.
  lemma ReturnWorkers(s: State, i: nat, result: Data)
    requires Inv(s) && i < |s.workers| && Enabled(s, i, Return(result))
    ensures var t, w := ReturnFrom(s, i, result), s.workers[i]; var w' := t.workers[i];
      && (w'.index == s.index || (w'.index == w.index && w.step < w'.step))
      && s.index <= t.index
      && forall j :: 0 <= j < |s.workers| && j != i ==>
           && t.workers[j].step == s.workers[j].step && t.workers[j].index == s.workers[j].index
           && t.workers[j].phase.Calling? == s.workers[j].phase.Calling?
           && !Blocks(s.workers[j], w)
  {
  }

  lemma ReturnEntered(s: State, i: nat, result: Data, st: nat, v: Visit)
    requires Inv(s) && i < |s.workers| && Enabled(s, i, Return(result)) && PassedEntry(s, st, v)
    ensures PassedEntry(ReturnFrom(s, i, result), st, v)
  {
    ReturnWorkers(s, i, result);
  }

  lemma ReturnReturned(s: State, i: nat, result: Data, st: nat, v: Visit)
    requires Inv(s) && i < |s.workers| && Enabled(s, i, Return(result))
    requires PassedReturn(s, st, v) || (st == s.workers[i].step && v.index == s.workers[i].index)
    ensures PassedReturn(ReturnFrom(s, i, result), st, v)
    ensures PassedReturn(s, st, v) && st == s.workers[i].step ==> v.index < s.workers[i].index
  {
    ReturnWorkers(s, i, result);
  }

  lemma ReturnLogs(s: State, i: nat, result: Data)
    requires Inv(s) && i < |s.workers| && Enabled(s, i, Return(result))
    ensures Logs(ReturnFrom(s, i, result))
  {
    var t, w := ReturnFrom(s, i, result), s.workers[i];
    forall st | 0 <= st < s.nSteps
      ensures Increasing(t.entered[st]) && Increasing(t.returned[st])
      ensures forall k :: 0 <= k < |t.entered[st]| ==> PassedEntry(t, st, t.entered[st][k])
      ensures forall k :: 0 <= k < |t.returned[st]| ==> PassedReturn(t, st, t.returned[st][k])
    {
      forall k | 0 <= k < |t.entered[st]|
        ensures PassedEntry(t, st, t.entered[st][k])
      {
        ReturnEntered(s, i, result, st, s.entered[st][k]);
      }
      forall k | 0 <= k < |t.returned[st]|
        ensures PassedReturn(t, st, t.returned[st][k])
        ensures k < |s.returned[st]| && st == w.step ==> s.returned[st][k].index < w.index
      {
        assert k < |s.returned[st]| ==> PassedReturn(s, st, s.returned[st][k]);
        ReturnReturned(s, i, result, st, t.returned[st][k]);
      }
    }
  }

  // One more visit is handed over, carried by worker i.
  lemma GrowsHanded(s: State, t: State, st: nat, i: nat, v: Visit)
    requires WellFormed(s) && WellFormed(t) && s.nSteps == t.nSteps && 0 < st < s.nSteps
    requires i < |s.workers| == |t.workers| && Handed(s, st)
    requires s.entered[st] == t.entered[st] && t.returned[st - 1] == s.returned[st - 1] + [v]
    requires s.workers[i].step != st && Carries(t, i, st, v)
    requires forall j :: 0 <= j < |s.workers| && j != i ==> SameWaiting(s.workers[j], t.workers[j], st)
    ensures Handed(t, st)
  {
    var given, taken := s.returned[st - 1], s.entered[st];
    var given' := given + [v];
    forall k | |taken| <= k < |given'|
      ensures Carried(t, st, given'[k])
    {
      if k < |given| {
        assert Carried(s, st, given[k]);
        var j :| 0 <= j < |s.workers| && Carries(s, j, st, given[k]);
        assert Carries(t, j, st, given'[k]);
      } else {
        assert Carries(t, i, st, given'[k]);
      }
    }
    forall j | 0 <= j < |t.workers| && t.workers[j].step == st && !t.workers[j].phase.Calling?
      ensures Pending(t, j, st, given', |taken|)
    {
      if j == i {
        assert Carries(t, j, st, given'[|given|]);
      } else {
        assert Pending(s, j, st, given, |taken|);
        var k :| |taken| <= k < |given| && Carries(s, j, st, given[k]);
        assert Carries(t, j, st, given'[k]);
      }
    }
  }

  // Data returned from the step before st becomes the last visit to be taken over.
  lemma ReturnHanded(s: State, i: nat, result: Data)
    requires Inv(s) && i < |s.workers| && Enabled(s, i, Return(result))
    requires result.Some? && s.workers[i].step + 1 < s.nSteps
    ensures Handed(ReturnFrom(s, i, result), s.workers[i].step + 1)
  {
    var st := s.workers[i].step + 1;
    assert Handed(s, st);
    GrowsHanded(s, ReturnFrom(s, i, result), st, i, Visit(s.workers[i].index, result));
  }

  // Any other handing over does not involve the returning worker.
  lemma ReturnKeepsHanded(s: State, i: nat, result: Data, st: nat)
    requires Inv(s) && i < |s.workers| && Enabled(s, i, Return(result)) && 0 < st < s.nSteps
    requires st != s.workers[i].step + 1 || result.None?
    ensures Handed(ReturnFrom(s, i, result), st)
  {
    var t := ReturnFrom(s, i, result);
    forall j | 0 <= j < |s.workers|
      ensures SameWaiting(s.workers[j], t.workers[j], st)
    {
      ReturnWaiting(s, i, result, st, j);
    }
    KeepsHanded(s, t, st);
  }

  lemma ReturnWaiting(s: State, i: nat, result: Data, st: nat, j: nat)
    requires i < |s.workers| && Enabled(s, i, Return(result)) && 0 < st < s.nSteps && j < |s.workers|
    requires st != s.workers[i].step + 1 || result.None?
    ensures SameWaiting(s.workers[j], ReturnFrom(s, i, result).workers[j], st)
  {
  }

  lemma ReturnHandover(s: State, i: nat, result: Data, st: nat)
    requires Inv(s) && i < |s.workers| && Enabled(s, i, Return(result)) && 0 < st < s.nSteps
    ensures Handed(ReturnFrom(s, i, result), st)
  {
    if st == s.workers[i].step + 1 && result.Some? {
      ReturnHanded(s, i, result);
    } else {
      ReturnKeepsHanded(s, i, result, st);
    }
  }

  lemma ReturnInv(s: State, i: nat, result: Data)
    requires Inv(s) && i < |s.workers| && Enabled(s, i, Return(result))
    ensures Inv(ReturnFrom(s, i, result))
  {
    ReturnPhases(s, i, result);
    ReturnLogs(s, i, result);
    forall st | 0 < st < s.nSteps
      ensures Handed(ReturnFrom(s, i, result), st)
    {
      ReturnHandover(s, i, result, st);
    }
  }

  lemma ApplyInv(s: State, i: nat, a: Action)
    requires Inv(s) && i < |s.workers| && Enabled(s, i, a)
    ensures Inv(Apply(s, i, a))
  {
    match a
    case Enter => EnterInv(s, i);
    case Sleep => SleepInv(s, i);
    case Wake => WakeInv(s, i);
    case Return(result) => ReturnInv(s, i, result);
  }
}
