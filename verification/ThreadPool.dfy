/** The thread pool while it is kept alive: any number of worker threads and one client that adds
    jobs and waits. A step is one access to shared memory under the lock that guards it; where
    the C code keeps a lock over several accesses, so does the model. */
module ThreadPool {
  import opened Wrappers

  // Testing: about to test the semaphore, at first or after a wake-up. Asleep: waiting on its
  // condition. Taken: has set it to 0. Counted: has added itself to num_threads_working.
  // Posting: has pulled a job, more are left, holds the queue lock. Leaving: about to subtract.
  datatype Phase = Testing | Asleep | Taken | Counted | Posting(job: nat) | Running(pulled: Option<nat>) | Leaving

  // Pushing: has linked a job, holds the queue lock. WantsLock: in thpool_wait, without the
  // lock. ReadsLen, ReadsWorking, GoesToSleep: inside, with thcount_lock. Sleeping: waiting on
  // threads_all_idle.
  datatype Client = Idle | Pushing | WantsLock | ReadsLen | ReadsWorking | GoesToSleep | Sleeping

  // Jobs are numbered in the order they are added; added counts them, finished logs the ends.
  datatype State = State(
    jobs: seq<nat>, added: nat, v: bool, working: int, threads: seq<Phase>, client: Client, finished: seq<nat>)

  ghost predicate Init(s: State) {
    && s.jobs == [] && s.added == 0 && !s.v && s.working == 0
    && (forall i :: 0 <= i < |s.threads| ==> s.threads[i] == Testing)
    && s.client == Idle && s.finished == []
  }

  datatype Action =
    | Push
    | PushPost(wake: Option<nat>)
    | CallWait
    | Lock
    | ReadLen
    | ReadWorking
    | GoToSleep
    | ClientWakes
    | Take(i: nat)
    | FallAsleep(i: nat)
    | Wakes(i: nat)
    | Count(i: nat)
    | Unlink(i: nat)
    | PullPost(i: nat, wake: Option<nat>)
    | Run(i: nat)
    | Leave(i: nat)

  predicate ClientHoldsCount(s: State) {
    s.client == ReadsLen || s.client == ReadsWorking || s.client == GoesToSleep
  }

  predicate QueueFree(s: State) {
    s.client != Pushing && forall i :: 0 <= i < |s.threads| ==> !s.threads[i].Posting?
  }

  // Signalling the semaphore's condition wakes one sleeper, if there is any.
  predicate Signals(threads: seq<Phase>, wake: Option<nat>) {
    match wake
    case Some(k) => k < |threads| && threads[k] == Asleep
    case None => forall k :: 0 <= k < |threads| ==> threads[k] != Asleep
  }

  function Woken(threads: seq<Phase>, wake: Option<nat>): (t: seq<Phase>)
    requires Signals(threads, wake)
    ensures |t| == |threads|
  {
    match wake
    case Some(k) => threads[k := Testing]
    case None => threads
  }

  predicate At(s: State, i: nat, p: Phase) {
    i < |s.threads| && s.threads[i] == p
  }

  predicate Enabled(s: State, a: Action) {
    match a
    case Push => s.client == Idle && QueueFree(s)
    case PushPost(wake) => s.client == Pushing && Signals(s.threads, wake)
    case CallWait => s.client == Idle
    case Lock => s.client == WantsLock
    case ReadLen => s.client == ReadsLen
    case ReadWorking => s.client == ReadsWorking
    case GoToSleep => s.client == GoesToSleep
    case ClientWakes => s.client == Sleeping
    case Take(i) => At(s, i, Testing) && s.v
    case FallAsleep(i) => At(s, i, Testing) && !s.v
    case Wakes(i) => At(s, i, Asleep)
    case Count(i) => At(s, i, Taken) && !ClientHoldsCount(s)
    case Unlink(i) => At(s, i, Counted) && QueueFree(s)
    case PullPost(i, wake) => i < |s.threads| && s.threads[i].Posting? && Signals(s.threads, wake)
    case Run(i) => i < |s.threads| && s.threads[i].Running?
    case Leave(i) => At(s, i, Leaving) && !ClientHoldsCount(s)
  }

  function To(s: State, i: nat, p: Phase): State
    requires i < |s.threads|
  {
    s.(threads := s.threads[i := p])
  }

  function Apply(s: State, a: Action): State
    requires Enabled(s, a)
  {
    match a
    case Push => s.(jobs := s.jobs + [s.added], added := s.added + 1, client := Pushing)
    case PushPost(wake) => s.(v := true, threads := Woken(s.threads, wake), client := Idle)
    case CallWait => s.(client := WantsLock)
    case Lock => s.(client := ReadsLen)
    case ReadLen => s.(client := if |s.jobs| == 0 then ReadsWorking else GoesToSleep)
    case ReadWorking => s.(client := if s.working == 0 then Idle else GoesToSleep)
    case GoToSleep => s.(client := Sleeping)
    case ClientWakes => s.(client := WantsLock)
    case Take(i) => To(s, i, Taken).(v := false)
    case FallAsleep(i) => To(s, i, Asleep)
    case Wakes(i) => To(s, i, Testing)
    case Count(i) => To(s, i, Counted).(working := s.working + 1)
    case Unlink(i) =>
      if |s.jobs| == 0 then To(s, i, Running(None))
      else if |s.jobs| == 1 then To(s, i, Running(Some(s.jobs[0]))).(jobs := [])
      else To(s, i, Posting(s.jobs[0])).(jobs := s.jobs[1..])
    case PullPost(i, wake) =>
      s.(v := true, threads := Woken(s.threads, wake)[i := Running(Some(s.threads[i].job))])
    case Run(i) =>
      (match s.threads[i].pulled
       case None => To(s, i, Leaving)
       case Some(job) => To(s, i, Leaving).(finished := s.finished + [job]))
    case Leave(i) =>
      To(s, i, Testing).(
        working := s.working - 1,
        client := if s.working - 1 == 0 && s.client == Sleeping then WantsLock else s.client)
  }

  // ---- the invariant ----

  predicate Works(p: Phase) {
    p.Counted? || p.Posting? || p.Running? || p.Leaving?
  }

  function Workers(ps: seq<Phase>): nat {
    if |ps| == 0 then 0 else Workers(ps[..|ps| - 1]) + (if Works(ps[|ps| - 1]) then 1 else 0)
  }

  // The job that a thread has pulled and not finished.
  function JobOf(p: Phase): Option<nat> {
    match p
    case Posting(job) => Some(job)
    case Running(pulled) => pulled
    case _ => None
  }

  // How many jobs have been pulled.
  function Pulled(s: State): int {
    s.added - |s.jobs|
  }

  ghost predicate InHand(s: State, job: nat) {
    exists i :: 0 <= i < |s.threads| && JobOf(s.threads[i]) == Some(job)
  }

  // The queue holds the latest jobs, in the order they were added.
  ghost predicate Fifo(s: State) {
    && |s.jobs| <= s.added
    && forall k :: 0 <= k < |s.jobs| ==> s.jobs[k] == Pulled(s) + k
  }

  // Every pulled job is in one thread's hand or finished once, never both.
  ghost predicate RunsOnce(s: State) {
    && (forall i, j :: 0 <= i < j < |s.threads| && JobOf(s.threads[i]).Some? ==> JobOf(s.threads[i]) != JobOf(s.threads[j]))
    && (forall k, l :: 0 <= k < l < |s.finished| ==> s.finished[k] != s.finished[l])
    && (forall i :: 0 <= i < |s.threads| && JobOf(s.threads[i]).Some? ==>
          JobOf(s.threads[i]).value < Pulled(s) && JobOf(s.threads[i]).value !in s.finished)
    && (forall k :: 0 <= k < |s.finished| ==> s.finished[k] < Pulled(s))
    && (forall job :: 0 <= job < Pulled(s) ==> job in s.finished || InHand(s, job))
  }

  // Jobs in the queue are announced by the semaphore, or somebody is on the way.
  ghost predicate NotStranded(s: State) {
    s.jobs != [] ==>
      s.v || s.client == Pushing || exists i :: 0 <= i < |s.threads| && OnTheWay(s.threads[i])
  }

  predicate OnTheWay(p: Phase) {
    p == Taken || p == Counted || p.Posting?
  }

  // When the semaphore is up and a thread sleeps, another has yet to test it.
  ghost predicate Tested(s: State) {
    s.v && (exists i :: 0 <= i < |s.threads| && s.threads[i] == Asleep) ==>
      exists i :: 0 <= i < |s.threads| && s.threads[i] == Testing
  }

  // A client that sleeps, or is about to, has something to wait for.
  ghost predicate WaitsForSomething(s: State) {
    s.client == Sleeping || s.client == GoesToSleep ==> s.jobs != [] || s.working > 0
  }

  ghost predicate Inv(s: State) {
    && s.working == Workers(s.threads)
    && Fifo(s) && RunsOnce(s) && NotStranded(s) && Tested(s) && WaitsForSomething(s)
    && (s.client == ReadsWorking && s.working == 0 ==> s.jobs == [])
  }

  lemma {:induction false} WorkersUpdate(ps: seq<Phase>, i: nat, p: Phase)
    requires i < |ps|
    ensures Workers(ps[i := p]) == Workers(ps) - (if Works(ps[i]) then 1 else 0) + (if Works(p) then 1 else 0)
  {
    var n := |ps| - 1;
    if i < n {
      WorkersUpdate(ps[..n], i, p);
      assert ps[i := p][..n] == ps[..n][i := p];
    } else {
      assert ps[i := p][..n] == ps[..n];
    }
  }

  lemma {:induction false} NoWorkers(ps: seq<Phase>, i: nat)
    requires i < |ps| && Workers(ps) == 0
    ensures !Works(ps[i])
  {
    if i < |ps| - 1 {
      NoWorkers(ps[..|ps| - 1], i);
    }
  }

  lemma {:induction false} AllTesting(ps: seq<Phase>)
    requires forall i :: 0 <= i < |ps| ==> ps[i] == Testing
    ensures Workers(ps) == 0
  {
    if |ps| > 0 {
      AllTesting(ps[..|ps| - 1]);
    }
  }

  lemma InitInv(s: State)
    requires Init(s)
    ensures Inv(s)
  {
    AllTesting(s.threads);
  }

  // The thread that moves, and the one it wakes.
  lemma WorkersWoken(threads: seq<Phase>, wake: Option<nat>)
    requires Signals(threads, wake)
    ensures Workers(Woken(threads, wake)) == Workers(threads)
  {
    if wake.Some? {
      WorkersUpdate(threads, wake.value, Testing);
    }
  }

  // The phase that the acting thread moves to.
  function PhaseAfter(s: State, a: Action): Phase
    requires Enabled(s, a) && ActsAlone(a)
  {
    Apply(s, a).threads[a.i]
  }

  // Actions that change the phase of one thread only.
  predicate ActsAlone(a: Action) {
    a.Take? || a.FallAsleep? || a.Wakes? || a.Count? || a.Unlink? || a.Run? || a.Leave?
  }

  lemma AloneChangesOne(s: State, a: Action)
    requires Enabled(s, a) && ActsAlone(a)
    ensures Apply(s, a).threads == s.threads[a.i := PhaseAfter(s, a)]
  {
  }

  lemma PullPostChanges(s: State, i: nat, wake: Option<nat>)
    requires Enabled(s, PullPost(i, wake))
    ensures var t, p := Apply(s, PullPost(i, wake)), Running(Some(s.threads[i].job));
      && t.threads == Woken(s.threads, wake)[i := p] && Woken(s.threads, wake)[i] == s.threads[i]
      && t.working == s.working
  {
  }

  lemma ApplyWorking(s: State, a: Action)
    requires s.working == Workers(s.threads) && Enabled(s, a)
    ensures Apply(s, a).working == Workers(Apply(s, a).threads)
  {
    if ActsAlone(a) {
      AloneChangesOne(s, a);
      WorkersUpdate(s.threads, a.i, PhaseAfter(s, a));
    } else if a.PushPost? {
      WorkersWoken(s.threads, a.wake);
    } else if a.PullPost? {
      PullPostChanges(s, a.i, a.wake);
      WorkersWoken(s.threads, a.wake);
      WorkersUpdate(Woken(s.threads, a.wake), a.i, Running(Some(s.threads[a.i].job)));
    }
  }

  // Nothing is pulled or finished.
  lemma SameHands(s: State, t: State)
    requires RunsOnce(s) && |s.threads| == |t.threads|
    requires forall i :: 0 <= i < |s.threads| ==> JobOf(t.threads[i]) == JobOf(s.threads[i])
    requires t.finished == s.finished && Pulled(t) == Pulled(s)
    ensures RunsOnce(t)
  {
    forall job | 0 <= job < Pulled(t)
      ensures job in t.finished || InHand(t, job)
    {
      if job !in s.finished {
        assert InHand(s, job);
        var i :| 0 <= i < |s.threads| && JobOf(s.threads[i]) == Some(job);
        assert JobOf(t.threads[i]) == Some(job);
      }
    }
  }

  // Thread i takes the next job into its hand.
  lemma TakesJob(s: State, t: State, i: nat)
    requires RunsOnce(s) && i < |s.threads| == |t.threads| && JobOf(s.threads[i]).None?
    requires JobOf(t.threads[i]) == Some(Pulled(s)) && 0 <= Pulled(s)
    requires forall j :: 0 <= j < |s.threads| && j != i ==> JobOf(t.threads[j]) == JobOf(s.threads[j])
    requires t.finished == s.finished && Pulled(t) == Pulled(s) + 1
    ensures RunsOnce(t)
  {
    forall job | 0 <= job < Pulled(t)
      ensures job in t.finished || InHand(t, job)
    {
      if job == Pulled(s) {
        assert JobOf(t.threads[i]) == Some(job);
      } else if job !in s.finished {
        assert InHand(s, job);
        var j :| 0 <= j < |s.threads| && JobOf(s.threads[j]) == Some(job);
        assert JobOf(t.threads[j]) == Some(job);
      }
    }
    assert Pulled(s) !in s.finished;
  }

  // Thread i finishes the job in its hand.
  lemma FinishesJob(s: State, t: State, i: nat, done: nat)
    requires RunsOnce(s) && i < |s.threads| == |t.threads| && JobOf(s.threads[i]) == Some(done)
    requires JobOf(t.threads[i]).None?
    requires forall j :: 0 <= j < |s.threads| && j != i ==> JobOf(t.threads[j]) == JobOf(s.threads[j])
    requires t.finished == s.finished + [done] && Pulled(t) == Pulled(s)
    ensures RunsOnce(t)
  {
    forall job | 0 <= job < Pulled(t)
      ensures job in t.finished || InHand(t, job)
    {
      if job == done {
        assert t.finished[|s.finished|] == job;
      } else if job in s.finished {
        var k :| 0 <= k < |s.finished| && s.finished[k] == job;
        assert t.finished[k] == job;
      } else {
        assert InHand(s, job);
        var j :| 0 <= j < |s.threads| && JobOf(s.threads[j]) == Some(job);
        assert JobOf(t.threads[j]) == Some(job);
      }
    }
    forall j | 0 <= j < |t.threads| && JobOf(t.threads[j]).Some?
      ensures JobOf(t.threads[j]).value !in t.finished
    {
    }
  }

  lemma UnlinkRuns(s: State, i: nat)
    requires Fifo(s) && RunsOnce(s) && Enabled(s, Unlink(i)) && s.jobs != []
    ensures Fifo(Apply(s, Unlink(i))) && RunsOnce(Apply(s, Unlink(i)))
  {
    TakesJob(s, Apply(s, Unlink(i)), i);
  }

  lemma RunRuns(s: State, i: nat)
    requires Fifo(s) && RunsOnce(s) && Enabled(s, Run(i)) && s.threads[i].pulled.Some?
    ensures Fifo(Apply(s, Run(i))) && RunsOnce(Apply(s, Run(i)))
  {
    FinishesJob(s, Apply(s, Run(i)), i, s.threads[i].pulled.value);
  }

  lemma OtherRuns(s: State, a: Action)
    requires Fifo(s) && RunsOnce(s) && Enabled(s, a)
    requires a.Unlink? ==> s.jobs == []
    requires a.Run? ==> s.threads[a.i].pulled.None?
    ensures Fifo(Apply(s, a)) && RunsOnce(Apply(s, a))
  {
    SameHands(s, Apply(s, a));
  }

  lemma ApplyRuns(s: State, a: Action)
    requires Fifo(s) && RunsOnce(s) && Enabled(s, a)
    ensures Fifo(Apply(s, a)) && RunsOnce(Apply(s, a))
  {
    if a.Unlink? && s.jobs != [] {
      UnlinkRuns(s, a.i);
    } else if a.Run? && s.threads[a.i].pulled.Some? {
      RunRuns(s, a.i);
    } else {
      OtherRuns(s, a);
    }
  }

  lemma ApplyAnnounces(s: State, a: Action)
    requires Inv(s) && Enabled(s, a)
    ensures NotStranded(Apply(s, a))
  {
    var t := Apply(s, a);
    if t.jobs != [] && !t.v && t.client != Pushing {
      if a.Take? || a.Count? {
        assert OnTheWay(t.threads[a.i]);
      } else if a.Unlink? {
        assert OnTheWay(t.threads[a.i]);
      } else {
        var i :| 0 <= i < |s.threads| && OnTheWay(s.threads[i]);
        assert OnTheWay(t.threads[i]);
      }
    }
  }

  lemma ApplyTests(s: State, a: Action)
    requires Inv(s) && Enabled(s, a)
    ensures Tested(Apply(s, a))
  {
    var t := Apply(s, a);
    if t.v && exists i :: 0 <= i < |t.threads| && t.threads[i] == Asleep {
      if a.PushPost? || a.PullPost? {
        assert a.wake.Some? && t.threads[a.wake.value] == Testing;
      } else if a.Wakes? || a.Leave? {
        assert t.threads[a.i] == Testing;
      } else {
        var k :| 0 <= k < |t.threads| && t.threads[k] == Asleep;
        assert s.threads[k] == Asleep;
        var i :| 0 <= i < |s.threads| && s.threads[i] == Testing;
        assert t.threads[i] == Testing;
      }
    }
  }

  lemma ApplyWaits(s: State, a: Action)
    requires Inv(s) && Enabled(s, a)
    ensures WaitsForSomething(Apply(s, a))
    ensures Apply(s, a).client == ReadsWorking && Apply(s, a).working == 0 ==> Apply(s, a).jobs == []
  {
    if a.Unlink? && s.working == 0 {
      NoWorkers(s.threads, a.i);
    }
  }

  lemma ApplyInv(s: State, a: Action)
    requires Inv(s) && Enabled(s, a)
    ensures Inv(Apply(s, a))
  {
    ApplyWorking(s, a);
    ApplyRuns(s, a);
    ApplyAnnounces(s, a);
    ApplyTests(s, a);
    ApplyWaits(s, a);
  }

  lemma SameThreads(s: State, a: Action)
    requires Enabled(s, a)
    ensures |Apply(s, a).threads| == |s.threads|
  {
  }

  ghost predicate IsRun(run: seq<State>, actions: seq<Action>) {
    && |run| == |actions| + 1 && Init(run[0])
    && forall n :: 0 <= n < |actions| ==> Enabled(run[n], actions[n]) && run[n + 1] == Apply(run[n], actions[n])
  }

  lemma {:induction false} RunInv(run: seq<State>, actions: seq<Action>, n: nat)
    requires IsRun(run, actions) && n <= |actions|
    ensures Inv(run[n]) && |run[n].threads| == |run[0].threads|
  {
    if n == 0 {
      InitInv(run[0]);
    } else {
      RunInv(run, actions, n - 1);
      ApplyInv(run[n - 1], actions[n - 1]);
      SameThreads(run[n - 1], actions[n - 1]);
    }
  }

  // Jobs leave the queue in the order they were added, and none is run twice.
  lemma FifoAndOnce(run: seq<State>, actions: seq<Action>)
    requires IsRun(run, actions)
    ensures Fifo(run[|actions|]) && RunsOnce(run[|actions|])
  {
    RunInv(run, actions, |actions|);
  }

  // thpool_wait returns only when every job added before has finished, although it reads the
  // queue length without the queue's lock.
  lemma WaitReturnsIdle(run: seq<State>, actions: seq<Action>)
    requires IsRun(run, actions) && 0 < |actions|
    requires actions[|actions| - 1] == ReadWorking && run[|actions|].client == Idle
    ensures var s := run[|actions|];
      && s.jobs == [] && forall job :: 0 <= job < s.added ==> job in s.finished
  {
    var n := |actions|;
    RunInv(run, actions, n - 1);
    var s := run[n - 1];
    forall job | 0 <= job < s.added
      ensures job in s.finished
    {
      if InHand(s, job) {
        var i :| 0 <= i < |s.threads| && JobOf(s.threads[i]) == Some(job);
        NoWorkers(s.threads, i);
      }
    }
  }

  predicate Waiting(c: Client) {
    c != Idle && c != Pushing
  }

  ghost predicate FinishedBelow(s: State, added: nat) {
    forall job :: 0 <= job < added ==> job in s.finished
  }

  lemma OnlyGrows(s: State, a: Action)
    requires Enabled(s, a)
    ensures s.added <= Apply(s, a).added
    ensures forall job :: job in s.finished ==> job in Apply(s, a).finished
    ensures Waiting(s.client) && !Waiting(Apply(s, a).client) ==> a == ReadWorking && Apply(s, a).client == Idle
  {
  }

  lemma ReturnedIdle(run: seq<State>, actions: seq<Action>, m: nat)
    requires IsRun(run, actions) && 0 < m <= |actions|
    requires actions[m - 1] == ReadWorking && run[m].client == Idle
    ensures FinishedBelow(run[m], run[m].added)
  {
    var before := run[..m + 1];
    assert before[m] == run[m];
    WaitReturnsIdle(before, actions[..m]);
  }

  // From a call of wait on the client waits, or all jobs added before the call have finished.
  lemma {:induction false} WaitsOrFinished(run: seq<State>, actions: seq<Action>, n: nat, m: nat)
    requires IsRun(run, actions) && n < m <= |actions| && actions[n] == CallWait
    ensures run[n].added <= run[m].added
    ensures Waiting(run[m].client) || FinishedBelow(run[m], run[n].added)
    decreases m
  {
    if n + 1 < m {
      WaitsOrFinished(run, actions, n, m - 1);
      var s, a := run[m - 1], actions[m - 1];
      OnlyGrows(s, a);
      if Waiting(s.client) && !Waiting(run[m].client) {
        ReturnedIdle(run, actions, m);
      }
    }
  }

  // A call of wait does not return before every job added until then has finished.
  lemma WaitReturnsLate(run: seq<State>, actions: seq<Action>, n: nat, m: nat)
    requires IsRun(run, actions) && n < m <= |actions| && actions[n] == CallWait && run[m].client == Idle
    ensures forall job :: 0 <= job < run[n].added ==> job in run[m].finished
  {
    WaitsOrFinished(run, actions, n, m);
  }

  // While jobs are queued the semaphore is up or somebody is on the way to the queue; a thread
  // sleeps beside a raised semaphore only if another has yet to test it; and a sleeping client
  // has jobs queued or in progress to wait for.
  lemma NoLostWakeUps(run: seq<State>, actions: seq<Action>)
    requires IsRun(run, actions)
    ensures NotStranded(run[|actions|]) && Tested(run[|actions|]) && WaitsForSomething(run[|actions|])
  {
    RunInv(run, actions, |actions|);
  }

  // ---- progress ----

  // Everything but adding jobs, calling wait, falling asleep and waking without a signal.
  predicate Productive(a: Action) {
    !(a.Push? || a.CallWait? || a.FallAsleep? || a.Wakes? || a.ClientWakes?)
  }

  function Rank(p: Phase): nat {
    match p
    case Testing => 0
    case Asleep => 0
    case Leaving => 5
    case Running(_) => 6
    case Posting(_) => 17
    case Counted => 8
    case Taken => 9
  }

  function ClientRank(c: Client): nat {
    match c
    case Idle => 0
    case Sleeping => 0
    case GoesToSleep => 1
    case ReadsWorking => 2
    case ReadsLen => 3
    case WantsLock => 4
    case Pushing => 11
  }

  function Ranks(ps: seq<Phase>): nat {
    if |ps| == 0 then 0 else Ranks(ps[..|ps| - 1]) + Rank(ps[|ps| - 1])
  }

  function Measure(s: State): nat {
    12 * |s.jobs| + (if s.v then 10 else 0) + Ranks(s.threads) + ClientRank(s.client)
  }

  lemma {:induction false} RanksUpdate(ps: seq<Phase>, i: nat, p: Phase)
    requires i < |ps|
    ensures Ranks(ps[i := p]) == Ranks(ps) - Rank(ps[i]) + Rank(p)
  {
    var n := |ps| - 1;
    if i < n {
      RanksUpdate(ps[..n], i, p);
      assert ps[i := p][..n] == ps[..n][i := p];
    } else {
      assert ps[i := p][..n] == ps[..n];
    }
  }

  lemma RanksWoken(threads: seq<Phase>, wake: Option<nat>)
    requires Signals(threads, wake)
    ensures Ranks(Woken(threads, wake)) == Ranks(threads)
  {
    if wake.Some? {
      RanksUpdate(threads, wake.value, Testing);
    }
  }

  // What an action may add to the measure.
  function Budget(a: Action): nat {
    match a
    case Push => 23
    case CallWait => 4
    case ClientWakes => 4
    case _ => 0
  }

  lemma AloneDrops(s: State, a: Action)
    requires Enabled(s, a) && ActsAlone(a)
    ensures Measure(Apply(s, a)) + (if Productive(a) then 1 else 0) <= Measure(s)
  {
    AloneChangesOne(s, a);
    RanksUpdate(s.threads, a.i, PhaseAfter(s, a));
  }

  lemma PullPostDrops(s: State, i: nat, wake: Option<nat>)
    requires Enabled(s, PullPost(i, wake))
    ensures Measure(Apply(s, PullPost(i, wake))) + 1 <= Measure(s)
  {
    PullPostChanges(s, i, wake);
    RanksWoken(s.threads, wake);
    RanksUpdate(Woken(s.threads, wake), i, Running(Some(s.threads[i].job)));
  }

  lemma MeasureDrops(s: State, a: Action)
    requires Enabled(s, a)
    ensures Measure(Apply(s, a)) + (if Productive(a) then 1 else 0) <= Measure(s) + Budget(a)
  {
    if ActsAlone(a) {
      AloneDrops(s, a);
    } else if a.PushPost? {
      RanksWoken(s.threads, a.wake);
    } else if a.PullPost? {
      PullPostDrops(s, a.i, a.wake);
    }
  }

  function ProductiveSteps(actions: seq<Action>): nat {
    if |actions| == 0 then 0
    else ProductiveSteps(actions[..|actions| - 1]) + (if Productive(actions[|actions| - 1]) then 1 else 0)
  }

  function Budgets(actions: seq<Action>): nat {
    if |actions| == 0 then 0 else Budgets(actions[..|actions| - 1]) + Budget(actions[|actions| - 1])
  }

  lemma {:induction false} NoRank(ps: seq<Phase>)
    requires forall i :: 0 <= i < |ps| ==> ps[i] == Testing
    ensures Ranks(ps) == 0
  {
    if |ps| > 0 {
      NoRank(ps[..|ps| - 1]);
    }
  }

  // The productive steps of a run are bounded by what the client asks for and by the client's
  // spurious wake-ups; sleeping workers may wake as often as they like.
  lemma {:induction false} ProductiveIsBounded(run: seq<State>, actions: seq<Action>)
    requires IsRun(run, actions)
    ensures ProductiveSteps(actions) + Measure(run[|actions|]) <= Budgets(actions)
    decreases |actions|
  {
    var n := |actions|;
    if n == 0 {
      NoRank(run[0].threads);
    } else {
      ProductiveIsBounded(run[..n], actions[..n - 1]);
      MeasureDrops(run[n - 1], actions[n - 1]);
    }
  }

  // A state that no productive step leaves has no thread under way.
  lemma StuckThreads(s: State)
    requires Inv(s) && forall a: Action :: Productive(a) ==> !Enabled(s, a)
    ensures s.client == Idle || s.client == Sleeping
    ensures forall i :: 0 <= i < |s.threads| ==> Rank(s.threads[i]) == 0
  {
    assert !Enabled(s, Lock) && !Enabled(s, ReadLen) && !Enabled(s, ReadWorking) && !Enabled(s, GoToSleep);
    var wake := SomeSignal(s.threads);
    assert !Enabled(s, PushPost(wake));
    forall i | 0 <= i < |s.threads|
      ensures !s.threads[i].Posting?
    {
      assert !Enabled(s, PullPost(i, wake));
    }
    forall i | 0 <= i < |s.threads|
      ensures Rank(s.threads[i]) == 0
    {
      assert !Enabled(s, Run(i)) && !Enabled(s, Leave(i)) && !Enabled(s, Count(i)) && !Enabled(s, Unlink(i));
    }
  }

  lemma SomeSignal(threads: seq<Phase>) returns (wake: Option<nat>)
    ensures Signals(threads, wake)
  {
    if k :| 0 <= k < |threads| && threads[k] == Asleep {
      return Some(k);
    }
    return None;
  }

  // Nor is the semaphore up, or anything queued, if there is a thread at all.
  lemma StuckQueue(s: State)
    requires Inv(s) && forall a: Action :: Productive(a) ==> !Enabled(s, a)
    requires 0 < |s.threads| || s.jobs == []
    ensures s.jobs == [] && s.working == 0 && s.client == Idle
  {
    StuckThreads(s);
    IdleWorkers(s.threads);
    forall i: nat | i < |s.threads|
      ensures s.v ==> s.threads[i] == Asleep
      ensures !OnTheWay(s.threads[i])
    {
      assert !Enabled(s, Take(i));
    }
    var first := if 0 < |s.threads| then s.threads[0] else Asleep;
    assert s.v ==> first == Asleep;
  }

  // Without threads nothing is ever pulled.
  lemma {:induction false} NothingPulled(run: seq<State>, actions: seq<Action>, n: nat)
    requires IsRun(run, actions) && n <= |actions| && |run[0].threads| == 0
    ensures Pulled(run[n]) == 0
  {
    if n > 0 {
      NothingPulled(run, actions, n - 1);
      RunInv(run, actions, n - 1);
    }
  }

  // When nothing productive is left to do, every job added has been finished and the client is
  // not left sleeping, exactly when there is a thread or there was no job.
  lemma StuckMeansFinished(run: seq<State>, actions: seq<Action>)
    requires IsRun(run, actions)
    requires forall a: Action :: Productive(a) ==> !Enabled(run[|actions|], a)
    ensures var s := run[|actions|];
      s.client == Idle && s.jobs == [] && (forall job :: 0 <= job < s.added ==> job in s.finished)
      <==> 0 < |run[0].threads| || s.added == 0
  {
    RunInv(run, actions, |actions|);
    var s := run[|actions|];
    StuckThreads(s);
    assert forall i :: 0 <= i < |s.threads| ==> JobOf(s.threads[i]).None?;
    if |s.threads| == 0 {
      NothingPulled(run, actions, |actions|);
    }
    if 0 < |s.threads| || s.added == 0 {
      StuckQueue(s);
    }
  }

  lemma {:induction false} IdleWorkers(ps: seq<Phase>)
    requires forall i :: 0 <= i < |ps| ==> Rank(ps[i]) == 0
    ensures Workers(ps) == 0
  {
    if |ps| > 0 {
      IdleWorkers(ps[..|ps| - 1]);
    }
  }
}
