/** Threads joined in the shape of a binomial heap: created last to first, each worker joins the
    workers one, two, four, ... above it while its own number allows. */
module BinomialJoin {
  import opened Arithmetic

  // ---- powers of two and bits ----

  function BitOr(a: nat, b: nat): nat
    decreases a + b
  {
    if a == 0 && b == 0 then 0
    else 2 * BitOr(a / 2, b / 2) + (if a % 2 == 1 || b % 2 == 1 then 1 else 0)
  }

  function LowBit(k: nat): (b: nat)
    requires k > 0
    ensures 1 <= b <= k
  {
    if k % 2 == 1 then 1 else 2 * LowBit(k / 2)
  }

  // The worker number with its lowest set bit cleared.
  function Parent(k: nat): nat
    requires k > 0
  {
    k - LowBit(k)
  }

  // The lowest s bits are clear.
  predicate Multiple(w: nat, s: nat) {
    s == 0 || (w % 2 == 0 && Multiple(w / 2, s - 1))
  }

  lemma {:induction false} MultipleIsDivisible(w: nat, s: nat)
    ensures Multiple(w, s) <==> w % Pow2(s) == 0
    decreases s
  {
    if s == 0 {
      assert Pow2(0) == 1;
    } else {
      MultipleIsDivisible(w / 2, s - 1);
      HalfRemainder(w, Pow2(s - 1));
    }
  }

  lemma {:induction false} BitOrZero(a: nat)
    ensures BitOr(a, 0) == a
  {
    if a > 0 {
      BitOrZero(a / 2);
    }
  }

  lemma {:induction false} MultipleDown(w: nat, s: nat, r: nat)
    requires Multiple(w, s) && r <= s
    ensures Multiple(w, r)
    decreases s
  {
    if r > 0 {
      MultipleDown(w / 2, s - 1, r - 1);
    }
  }

  // Setting bit s of a number whose bits up to s are clear adds 2^s, and makes it the lowest.
  lemma {:induction false} SetBit(w: nat, s: nat)
    requires Multiple(w, s + 1)
    ensures BitOr(w, Pow2(s)) == w + Pow2(s)
    ensures LowBit(w + Pow2(s)) == Pow2(s)
    ensures Multiple(w + Pow2(s), s) && !Multiple(w + Pow2(s), s + 1)
    decreases s
  {
    if s == 0 {
      BitOrZero(w / 2);
    } else {
      SetBit(w / 2, s - 1);
      assert Pow2(s) / 2 == Pow2(s - 1) && (w + Pow2(s)) / 2 == w / 2 + Pow2(s - 1);
    }
  }

  lemma {:induction false} Pow2Monotone(s: nat, r: nat)
    requires s <= r
    ensures Pow2(s) <= Pow2(r) && (s < r ==> Pow2(s) < Pow2(r))
    decreases r
  {
    if s < r {
      Pow2Monotone(s, r - 1);
    }
  }

  lemma Pow2Injective(s: nat, r: nat)
    requires Pow2(s) == Pow2(r)
    ensures s == r
  {
    if s < r {
      Pow2Monotone(s, r);
    } else {
      Pow2Monotone(r, s);
    }
  }

  // Every positive number has a lowest bit, below which it is a multiple.
  lemma {:induction false} LowBitIndex(k: nat) returns (s: nat)
    requires k > 0
    ensures LowBit(k) == Pow2(s) && Multiple(Parent(k), s + 1)
    decreases k
  {
    if k % 2 == 1 {
      s := 0;
    } else {
      var r := LowBitIndex(k / 2);
      s := r + 1;
      assert Parent(k) / 2 == Parent(k / 2);
    }
  }

  // ---- the threads ----

  // Rounds counts the joins a worker has completed.
  datatype Phase = NotCreated | Busy | Joining(rounds: nat) | Done(rounds: nat)

  datatype Join = Join(parent: nat, child: nat)

  // creating is one more than the worker created next, mainDone is set by main's last join.
  datatype State = State(count: nat, creating: nat, workers: seq<Phase>, joins: seq<Join>, mainDone: bool)

  ghost predicate Init(s: State) {
    && 0 < s.count == s.creating == |s.workers|
    && (forall w :: 0 <= w < s.count ==> s.workers[w] == NotCreated)
    && s.joins == [] && !s.mainDone
  }

  datatype Action = Create | FinishWork(w: nat) | JoinNext(w: nat) | Stop(w: nat) | MainJoin

  // The worker that w joins in round r.
  function Partner(w: nat, r: nat): nat {
    BitOr(w, Pow2(r))
  }

  predicate Leaves(count: nat, w: nat, r: nat) {
    w % (2 * Pow2(r)) != 0 || Partner(w, r) >= count
  }

  predicate Enabled(s: State, a: Action) {
    && |s.workers| == s.count
    && match a
       case Create => 0 < s.creating <= s.count
       case FinishWork(w) => w < s.count && s.workers[w].Busy?
       case JoinNext(w) =>
         w < s.count && s.workers[w].Joining? && !Leaves(s.count, w, s.workers[w].rounds)
         && s.workers[Partner(w, s.workers[w].rounds)].Done?
       case Stop(w) => w < s.count && s.workers[w].Joining? && Leaves(s.count, w, s.workers[w].rounds)
       case MainJoin => s.creating == 0 && !s.mainDone && 0 < s.count && s.workers[0].Done?
  }

  function Apply(s: State, a: Action): State
    requires Enabled(s, a)
  {
    match a
    case Create => s.(creating := s.creating - 1, workers := s.workers[s.creating - 1 := Busy])
    case FinishWork(w) => s.(workers := s.workers[w := Joining(0)])
    case JoinNext(w) =>
      var r := s.workers[w].rounds;
      s.(workers := s.workers[w := Joining(r + 1)], joins := s.joins + [Join(w, Partner(w, r))])
    case Stop(w) => s.(workers := s.workers[w := Done(s.workers[w].rounds)])
    case MainJoin => s.(mainDone := true)
  }

  predicate PastWork(p: Phase) {
    p.Joining? || p.Done?
  }

  // The end of what w covers after r rounds: w itself and all it has joined, directly or not.
  function CoverEnd(count: nat, w: nat, r: nat): nat {
    if w + Pow2(r) < count then w + Pow2(r) else count
  }

  ghost predicate Created(s: State)
    requires |s.workers| == s.count
  {
    forall w :: 0 <= w < s.count ==> (s.workers[w].NotCreated? <==> w < s.creating)
  }

  ghost predicate Covers(s: State, w: nat)
    requires w < s.count == |s.workers| && PastWork(s.workers[w])
  {
    var r := s.workers[w].rounds;
    && Multiple(w, r)
    && (forall k :: w < k < CoverEnd(s.count, w, r) ==> s.workers[k].Done?)
    && (s.workers[w].Done? ==> Leaves(s.count, w, r))
  }

  // Child k has been joined exactly when its parent has completed the round for it.
  ghost predicate JoinedOnce(s: State) {
    && (forall i, j :: 0 <= i < j < |s.joins| ==> s.joins[i].child != s.joins[j].child)
    && (forall i :: 0 <= i < |s.joins| ==>
          0 < s.joins[i].child < s.count && s.joins[i].parent == Parent(s.joins[i].child))
  }

  ghost predicate Joined(s: State, k: nat) {
    exists i :: 0 <= i < |s.joins| && s.joins[i].child == k
  }

  // A worker has joined its partners of all completed rounds, and no others.
  ghost predicate RoundsLogged(s: State)
    requires |s.workers| == s.count
  {
    forall w, r: nat :: 0 <= w < s.count && Multiple(w, r + 1) && w + Pow2(r) < s.count ==>
      (Joined(s, w + Pow2(r)) <==> PastWork(s.workers[w]) && r < s.workers[w].rounds)
  }

  ghost predicate Inv(s: State) {
    && |s.workers| == s.count && 0 < s.count && s.creating <= s.count
    && Created(s)
    && (forall w {:trigger Covers(s, w)} :: 0 <= w < s.count && PastWork(s.workers[w]) ==> Covers(s, w))
    && JoinedOnce(s) && RoundsLogged(s)
    && (s.mainDone ==> s.workers[0].Done?)
  }

  lemma InitInv(s: State)
    requires Init(s)
    ensures Inv(s)
  {
  }

  // What the loop head of a worker decides.
  lemma LeavesRule(count: nat, w: nat, r: nat)
    ensures Leaves(count, w, r) <==> !Multiple(w, r + 1) || w + Pow2(r) >= count
    ensures Multiple(w, r + 1) ==> Partner(w, r) == w + Pow2(r)
  {
    MultipleIsDivisible(w, r + 1);
    if Multiple(w, r + 1) {
      SetBit(w, r);
    }
  }

  // A partner of round r that has stopped covers as much as w covers by joining it.
  lemma PartnerCovers(count: nat, w: nat, r: nat, rounds: nat)
    requires Multiple(w, r + 1) && w + Pow2(r) < count
    requires Multiple(w + Pow2(r), rounds) && Leaves(count, w + Pow2(r), rounds)
    ensures CoverEnd(count, w, r) == w + Pow2(r)
    ensures CoverEnd(count, w + Pow2(r), rounds) == CoverEnd(count, w, r + 1)
  {
    var k := w + Pow2(r);
    SetBit(w, r);
    LeavesRule(count, k, rounds);
    if rounds > r {
      MultipleDown(k, rounds, r + 1);
    } else if rounds < r {
      MultipleDown(k, r, rounds + 1);
      Pow2Monotone(rounds, r);
    }
  }

  lemma JoinCovers(s: State, w: nat)
    requires Inv(s) && Enabled(s, JoinNext(w))
    ensures Covers(Apply(s, JoinNext(w)), w)
  {
    var t, r := Apply(s, JoinNext(w)), s.workers[w].rounds;
    LeavesRule(s.count, w, r);
    var k := w + Pow2(r);
    assert Covers(s, w) && Covers(s, k);
    PartnerCovers(s.count, w, r, s.workers[k].rounds);
  }

  // A worker number and round are determined by the partner they lead to.
  lemma PartnerOfOne(w: nat, r: nat, v: nat, q: nat)
    requires Multiple(w, r + 1) && Multiple(v, q + 1) && w + Pow2(r) == v + Pow2(q)
    ensures w == v && r == q
  {
    SetBit(w, r);
    SetBit(v, q);
    Pow2Injective(r, q);
  }

  lemma JoinedGrows(s: State, t: State, j: Join)
    requires t.joins == s.joins + [j]
    ensures forall x :: Joined(t, x) <==> Joined(s, x) || x == j.child
  {
    forall x
      ensures Joined(t, x) <==> Joined(s, x) || x == j.child
    {
      if Joined(s, x) {
        var i :| 0 <= i < |s.joins| && s.joins[i].child == x;
        assert t.joins[i].child == x;
      }
      assert t.joins[|s.joins|].child == j.child;
    }
  }

  lemma JoinRounds(s: State, w: nat, v: nat, q: nat)
    requires Inv(s) && Enabled(s, JoinNext(w))
    requires v < s.count && Multiple(v, q + 1) && v + Pow2(q) < s.count
    ensures var t := Apply(s, JoinNext(w));
      |t.workers| == t.count &&
      (Joined(t, v + Pow2(q)) <==> PastWork(t.workers[v]) && q < t.workers[v].rounds)
  {
    var t, r := Apply(s, JoinNext(w)), s.workers[w].rounds;
    LeavesRule(s.count, w, r);
    JoinedGrows(s, t, Join(w, Partner(w, r)));
    if v + Pow2(q) == w + Pow2(r) {
      PartnerOfOne(w, r, v, q);
    } else {
      assert Joined(s, v + Pow2(q)) <==> PastWork(s.workers[v]) && q < s.workers[v].rounds;
    }
  }

  lemma JoinLogs(s: State, w: nat)
    requires Inv(s) && Enabled(s, JoinNext(w))
    ensures var t := Apply(s, JoinNext(w));
      |t.workers| == t.count && JoinedOnce(t) && RoundsLogged(t)
  {
    var t, r := Apply(s, JoinNext(w)), s.workers[w].rounds;
    LeavesRule(s.count, w, r);
    SetBit(w, r);
    assert !Joined(s, w + Pow2(r));
    forall v, q: nat | 0 <= v < t.count && Multiple(v, q + 1) && v + Pow2(q) < t.count
      ensures Joined(t, v + Pow2(q)) <==> PastWork(t.workers[v]) && q < t.workers[v].rounds
    {
      JoinRounds(s, w, v, q);
    }
  }

  // Creating, working and stopping leave the log of joins right.
  lemma KeepsLogs(s: State, a: Action)
    requires Inv(s) && Enabled(s, a) && !a.JoinNext?
    ensures var t := Apply(s, a); |t.workers| == t.count && JoinedOnce(t) && RoundsLogged(t)
  {
    var t := Apply(s, a);
    assert forall x :: Joined(t, x) <==> Joined(s, x);
    forall v, q: nat | 0 <= v < t.count && Multiple(v, q + 1) && v + Pow2(q) < t.count
      ensures Joined(t, v + Pow2(q)) <==> PastWork(t.workers[v]) && q < t.workers[v].rounds
    {
      assert Joined(s, v + Pow2(q)) <==> PastWork(s.workers[v]) && q < s.workers[v].rounds;
    }
  }

  // Workers that are done stay so, and what they cover with them.
  lemma KeepsCovers(s: State, a: Action, v: nat)
    requires Inv(s) && Enabled(s, a) && v < s.count && PastWork(s.workers[v])
    requires Apply(s, a).workers[v] == s.workers[v]
    ensures Covers(Apply(s, a), v)
  {
    assert Covers(s, v);
  }

  lemma ApplyCovers(s: State, a: Action, v: nat)
    requires Inv(s) && Enabled(s, a) && v < s.count && PastWork(Apply(s, a).workers[v])
    ensures Covers(Apply(s, a), v)
  {
    if Apply(s, a).workers[v] == s.workers[v] {
      KeepsCovers(s, a, v);
    } else if a.JoinNext? {
      JoinCovers(s, v);
    } else if a.Stop? {
      assert Covers(s, v);
    } else {
      assert Pow2(0) == 1;
    }
  }

  lemma ApplyInv(s: State, a: Action)
    requires Inv(s) && Enabled(s, a)
    ensures Inv(Apply(s, a))
  {
    forall v | 0 <= v < s.count && PastWork(Apply(s, a).workers[v])
      ensures Covers(Apply(s, a), v)
    {
      ApplyCovers(s, a, v);
    }
    if a.JoinNext? {
      JoinLogs(s, a.w);
    } else {
      KeepsLogs(s, a);
    }
  }

  ghost predicate IsRun(run: seq<State>, actions: seq<Action>) {
    && |run| == |actions| + 1 && Init(run[0])
    && forall n :: 0 <= n < |actions| ==> Enabled(run[n], actions[n]) && run[n + 1] == Apply(run[n], actions[n])
  }

  lemma {:induction false} RunInv(run: seq<State>, actions: seq<Action>, n: nat)
    requires IsRun(run, actions) && n <= |actions|
    ensures Inv(run[n]) && run[n].count == run[0].count
  {
    if n == 0 {
      InitInv(run[0]);
    } else {
      RunInv(run, actions, n - 1);
      ApplyInv(run[n - 1], actions[n - 1]);
    }
  }

  // A worker only waits for workers that have been created, and joins each at most once: the
  // one with its lowest set bit cleared does.
  lemma JoinsAreSafe(run: seq<State>, actions: seq<Action>)
    requires IsRun(run, actions)
    ensures var s := run[|actions|];
      && |s.workers| == s.count
      && (forall w, k :: 0 <= w < k < s.count && !s.workers[w].NotCreated? ==> !s.workers[k].NotCreated?)
      && JoinedOnce(s)
  {
    RunInv(run, actions, |actions|);
  }

  lemma ZeroIsMultiple(r: nat)
    ensures Multiple(0, r)
  {
  }

  // Once worker 0 is done everybody is.
  lemma RootCoversAll(s: State)
    requires Inv(s) && s.workers[0].Done?
    ensures forall k :: 0 <= k < s.count ==> s.workers[k].Done?
    ensures CoverEnd(s.count, 0, s.workers[0].rounds) == s.count
  {
    assert Covers(s, 0);
    LeavesRule(s.count, 0, s.workers[0].rounds);
    ZeroIsMultiple(s.workers[0].rounds + 1);
  }

  lemma DoneParentJoined(s: State, k: nat)
    requires Inv(s) && 0 < k < s.count && s.workers[Parent(k)].Done?
    ensures Joined(s, k)
  {
    var p := Parent(k);
    var r := LowBitIndex(k);
    var rounds := s.workers[p].rounds;
    assert Covers(s, p);
    LeavesRule(s.count, p, rounds);
    if rounds <= r {
      MultipleDown(p, r + 1, rounds + 1);
      Pow2Monotone(rounds, r);
    }
    assert p + Pow2(r) == k;
  }

  // When main's join returns all threads have stopped, and every worker but the first has been
  // joined exactly once.
  lemma AllStopped(run: seq<State>, actions: seq<Action>)
    requires IsRun(run, actions) && run[|actions|].mainDone
    ensures var s := run[|actions|];
      && |s.workers| == s.count
      && (forall k :: 0 <= k < s.count ==> s.workers[k].Done?)
      && JoinedOnce(s) && (forall k :: 0 < k < s.count ==> Joined(s, k))
  {
    RunInv(run, actions, |actions|);
    var s := run[|actions|];
    RootCoversAll(s);
    forall k | 0 < k < s.count
      ensures Joined(s, k)
    {
      DoneParentJoined(s, k);
    }
  }

  // The last worker that is not done, if there is one.
  lemma {:induction false} LastUndone(s: State, n: nat) returns (w: int)
    requires |s.workers| == s.count && n <= s.count
    requires forall k :: n <= k < s.count ==> s.workers[k].Done?
    ensures -1 <= w < n && (w >= 0 ==> !s.workers[w].Done?)
    ensures forall k :: w < k < s.count ==> s.workers[k].Done?
  {
    if n > 0 && s.workers[n - 1].Done? {
      w := LastUndone(s, n - 1);
    } else {
      w := n - 1;
    }
  }

  // The joins never wait for each other in a circle: until main is done something can happen.
  lemma NeverStuckIn(s: State) returns (a: Action)
    requires Inv(s) && !s.mainDone
    ensures Enabled(s, a)
  {
    if s.creating > 0 {
      return Create;
    }
    var w := LastUndone(s, s.count);
    if w < 0 {
      return MainJoin;
    }
    if s.workers[w].Busy? {
      return FinishWork(w);
    }
    var r := s.workers[w].rounds;
    LeavesRule(s.count, w, r);
    return if Leaves(s.count, w, r) then Stop(w) else JoinNext(w);
  }

  lemma NeverStuck(run: seq<State>, actions: seq<Action>) returns (a: Action)
    requires IsRun(run, actions) && !run[|actions|].mainDone
    ensures Enabled(run[|actions|], a)
  {
    RunInv(run, actions, |actions|);
    a := NeverStuckIn(run[|actions|]);
  }

  // ---- termination ----

  function Rank(p: Phase): nat {
    match p
    case NotCreated => 3
    case Busy => 2
    case Joining(_) => 1
    case Done(_) => 0
  }

  function Ranks(ps: seq<Phase>): nat {
    if |ps| == 0 then 0 else Ranks(ps[..|ps| - 1]) + Rank(ps[|ps| - 1])
  }

  // What is left to do, but for the joins done.
  function Measure(s: State): int {
    Ranks(s.workers) + (if s.mainDone then 0 else 1) - |s.joins|
  }

  lemma {:induction false} RanksUpdate(ps: seq<Phase>, i: nat, p: Phase)
    requires i < |ps|
    ensures Ranks(ps[i := p]) == Ranks(ps) - Rank(ps[i]) + Rank(p)
  {
    var n := |ps| - 1;
    if i < n {
      RanksUpdate(ps[..n], i, p);
      assert ps[i := p][..n] == ps[..n][i := p];
    } else {
      assert ps[i := p][..n] == ps[..n];
    }
  }

  lemma {:induction false} SameRanks(ps: seq<Phase>, r: nat)
    requires forall i :: 0 <= i < |ps| ==> Rank(ps[i]) == r
    ensures Ranks(ps) == r * |ps|
  {
    if |ps| > 0 {
      SameRanks(ps[..|ps| - 1], r);
    }
  }

  lemma MeasureDrops(s: State, a: Action)
    requires Inv(s) && Enabled(s, a)
    ensures Measure(Apply(s, a)) == Measure(s) - 1
  {
    match a
    case Create => RanksUpdate(s.workers, s.creating - 1, Busy);
    case FinishWork(w) => RanksUpdate(s.workers, w, Joining(0));
    case JoinNext(w) => RanksUpdate(s.workers, w, Joining(s.workers[w].rounds + 1));
    case Stop(w) => RanksUpdate(s.workers, w, Done(s.workers[w].rounds));
    case MainJoin =>
  }

  // The children joined are different workers other than the first.
  lemma JoinsBelowCount(s: State)
    requires JoinedOnce(s) && 0 < s.count
    ensures |s.joins| < s.count
  {
    ChildrenBelow(Children(s), s.count);
  }

  lemma {:induction false} ChildrenBelow(xs: seq<nat>, n: nat)
    requires 0 < n && forall i :: 0 <= i < |xs| ==> 0 < xs[i] < n
    requires forall i, j :: 0 <= i < j < |xs| ==> xs[i] != xs[j]
    ensures |xs| < n
    decreases n
  {
    assert |xs| > 0 ==> 0 < xs[0] < n;
    if n > 1 {
      if j :| 0 <= j < |xs| && xs[j] == n - 1 {
        var ys := xs[..j] + xs[j + 1..];
        assert forall k :: 0 <= k < |ys| ==> ys[k] == if k < j then xs[k] else xs[k + 1];
        ChildrenBelow(ys, n - 1);
      } else {
        ChildrenBelow(xs, n - 1);
      }
    }
  }

  lemma {:induction false} StepsCounted(run: seq<State>, actions: seq<Action>, n: nat)
    requires IsRun(run, actions) && n <= |actions|
    ensures n == Measure(run[0]) - Measure(run[n]) && Measure(run[0]) == 3 * run[0].count + 1
  {
    if n == 0 {
      SameRanks(run[0].workers, 3);
    } else {
      StepsCounted(run, actions, n - 1);
      RunInv(run, actions, n - 1);
      MeasureDrops(run[n - 1], actions[n - 1]);
    }
  }

  // No run has more than four steps for every thread, and those that have returned in main
  // have just as many.
  lemma FourStepsEach(run: seq<State>, actions: seq<Action>)
    requires IsRun(run, actions)
    ensures |actions| <= 4 * run[0].count
    ensures run[|actions|].mainDone <==> |actions| == 4 * run[0].count
  {
    var s := run[|actions|];
    RunInv(run, actions, |actions|);
    StepsCounted(run, actions, |actions|);
    JoinsBelowCount(s);
    if s.mainDone {
      AllStopped(run, actions);
      SameRanks(s.workers, 0);
      AllJoined(s);
    }
  }

  lemma AllJoined(s: State)
    requires 0 < s.count && JoinedOnce(s) && forall k :: 0 < k < s.count ==> Joined(s, k)
    ensures |s.joins| == s.count - 1
  {
    JoinsBelowCount(s);
    var children := Children(s);
    forall k: nat | 0 < k < s.count
      ensures k in children
    {
      assert Joined(s, k);
      var i :| 0 <= i < |s.joins| && s.joins[i].child == k;
      assert children[i] == k;
    }
    ChildrenFill(children, s.count);
  }

  function Children(s: State): seq<nat> {
    seq(|s.joins|, i requires 0 <= i < |s.joins| => s.joins[i].child)
  }

  lemma {:induction false} ChildrenFill(xs: seq<nat>, n: nat)
    requires 0 < n && forall k: nat :: 0 < k < n ==> k in xs
    ensures n <= |xs| + 1
    decreases n
  {
    if n > 1 {
      var last: nat := n - 1;
      assert last in xs;
      var j :| 0 <= j < |xs| && xs[j] == last;
      var ys := xs[..j] + xs[j + 1..];
      forall k: nat | 0 < k < n - 1
        ensures k in ys
      {
        assert k in xs;
        var i :| 0 <= i < |xs| && xs[i] == k;
        assert ys[if i < j then i else i - 1] == k;
      }
      ChildrenFill(ys, n - 1);
    }
  }
}
