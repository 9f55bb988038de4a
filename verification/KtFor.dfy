/** The work-stealing parallel loop: every thread adds the thread count to a cursor by an atomic
    fetch-and-add, first to its own, then to the one that a racy scan found lowest. */
module KtFor {
  import opened Arithmetic

  // Own: about to fetch from its own cursor. Scanning: about to compare cursor at with the
  // least value so far, stored for cursor minAt. Storing: about to read cursor at again, and to
  // store it as the least. Stealing: about to fetch from the cursor chosen. Calling: running
  // the body for index k, after an own fetch or after a steal.
  datatype Phase =
    | Own
    | Scanning(at: nat, minAt: int, min: int)
    | Storing(at: nat)
    | Stealing(minAt: int)
    | Calling(k: int, stolen: bool)
    | Finished

  // called logs the indices the body was called for, in order.
  datatype State = State(n: int, cursors: seq<int>, threads: seq<Phase>, called: seq<int>)

  const LONG_MAX := 9223372036854775807

  ghost predicate Init(s: State) {
    && 1 < |s.cursors| == |s.threads|
    && (forall i :: 0 <= i < |s.cursors| ==> s.cursors[i] == i && s.threads[i] == Own)
    && s.called == []
  }

  function Set(s: State, i: nat, phase: Phase): State
    requires i < |s.threads|
  {
    s.(threads := s.threads[i := phase])
  }

  // Fetches from cursor c for thread i; the index is worked on when it is below n.
  function FetchFrom(s: State, i: nat, c: nat, stolen: bool): State
    requires i < |s.threads| && c < |s.cursors|
  {
    var k := s.cursors[c];
    var t := s.(cursors := s.cursors[c := k + |s.threads|]);
    if k < s.n then
      Set(t, i, Calling(k, stolen)).(called := s.called + [k])
    else
      Set(t, i, if stolen then Finished else Scanning(0, -1, LONG_MAX))
  }

  predicate CanMove(s: State, i: nat)
    requires i < |s.threads|
  {
    match s.threads[i]
    case Storing(at) => at < |s.cursors|
    case Stealing(c) => 0 <= c < |s.cursors|
    case Finished => false
    case _ => |s.cursors| == |s.threads|
  }

  // One step of thread i: one shared access, or the return from the body.
  function Move(s: State, i: nat): State
    requires i < |s.threads| && CanMove(s, i)
  {
    match s.threads[i]
    case Own => FetchFrom(s, i, i, false)
    case Scanning(at, minAt, min) =>
      if at >= |s.cursors| then Set(s, i, Stealing(minAt))
      else if min > s.cursors[at] then Set(s, i, Storing(at))
      else Set(s, i, Scanning(at + 1, minAt, min))
    case Storing(at) => Set(s, i, Scanning(at + 1, at, s.cursors[at]))
    case Stealing(c) => FetchFrom(s, i, c, true)
    case Calling(_, stolen) => Set(s, i, if stolen then Scanning(0, -1, LONG_MAX) else Own)
  }

  ghost predicate Distinct(xs: seq<int>) {
    forall i, j :: 0 <= i < j < |xs| ==> xs[i] != xs[j]
  }

  // Cursor c only ever holds numbers of its own remainder.
  ghost predicate Cursors(cursors: seq<int>) {
    && 1 < |cursors|
    && forall c :: 0 <= c < |cursors| ==> c <= cursors[c] && cursors[c] % |cursors| == c
  }

  // The indices called are exactly those below n that their cursor has passed.
  ghost predicate CalledExactly(n: int, cursors: seq<int>, called: seq<int>)
    requires 0 < |cursors|
  {
    && Distinct(called)
    && forall k :: k in called <==> 0 <= k < n && k < cursors[k % |cursors|]
  }

  // The thread has left its first loop.
  predicate PastOwn(p: Phase) {
    p.Scanning? || p.Storing? || p.Stealing? || p.Finished? || (p.Calling? && p.stolen)
  }

  ghost predicate Owners(s: State)
    requires |s.cursors| == |s.threads|
  {
    forall i :: 0 <= i < |s.threads| && PastOwn(s.threads[i]) ==> s.n <= s.cursors[i]
  }

  // Fetches that found nothing: one ends the first loop, one the second.
  function Misses(p: Phase): nat {
    if p.Finished? then 2 else if PastOwn(p) then 1 else 0
  }

  function AllMisses(ps: seq<Phase>): nat {
    if |ps| == 0 then 0 else AllMisses(ps[..|ps| - 1]) + Misses(ps[|ps| - 1])
  }

  function AtLeastZero(n: int): nat {
    if n < 0 then 0 else n
  }

  function Cap(n: int, m: nat, misses: nat): int {
    AtLeastZero(n) + m + m * misses
  }

  ghost predicate Bounded(cursors: seq<int>, cap: int) {
    forall c :: 0 <= c < |cursors| ==> cursors[c] < cap
  }

  function CapOf(s: State): int {
    Cap(s.n, |s.cursors|, AllMisses(s.threads))
  }

  ghost predicate Inv(s: State) {
    && |s.cursors| == |s.threads|
    && Cursors(s.cursors)
    && CalledExactly(s.n, s.cursors, s.called)
    && Owners(s)
    && Bounded(s.cursors, CapOf(s))
  }

  lemma {:induction false} NoMisses(ps: seq<Phase>)
    requires forall i :: 0 <= i < |ps| ==> ps[i] == Own
    ensures AllMisses(ps) == 0
  {
    if |ps| > 0 {
      NoMisses(ps[..|ps| - 1]);
    }
  }

  lemma {:induction false} AtMostTwoMisses(ps: seq<Phase>)
    ensures AllMisses(ps) <= 2 * |ps|
  {
    if |ps| > 0 {
      AtMostTwoMisses(ps[..|ps| - 1]);
    }
  }

  lemma {:induction false} MissesUpdate(ps: seq<Phase>, i: nat, p: Phase)
    requires i < |ps|
    ensures AllMisses(ps[i := p]) == AllMisses(ps) - Misses(ps[i]) + Misses(p)
  {
    var n := |ps| - 1;
    if i < n {
      MissesUpdate(ps[..n], i, p);
      assert ps[i := p][..n] == ps[..n][i := p];
    } else {
      assert ps[i := p][..n] == ps[..n];
    }
  }

  lemma InitInv(s: State)
    requires Init(s)
    ensures Inv(s)
  {
    NoMisses(s.threads);
    forall c | 0 <= c < |s.cursors|
      ensures s.cursors[c] % |s.cursors| == c
    {
      QuotientUnique(c, |s.cursors|, 0, c);
    }
    forall k: int | 0 <= k
      ensures s.cursors[k % |s.cursors|] <= k
    {
      RemainderBelow(k, |s.cursors|);
    }
    CapGrows(s.n, |s.cursors|, 0);
  }

  // What a fetch from cursor c does to the calls.
  lemma FetchCalls(s: State, i: nat, c: nat, stolen: bool)
    requires Inv(s) && i < |s.threads| && c < |s.cursors|
    ensures var t := FetchFrom(s, i, c, stolen);
      Cursors(t.cursors) && CalledExactly(t.n, t.cursors, t.called)
  {
    var t, k, m := FetchFrom(s, i, c, stolen), s.cursors[c], |s.cursors|;
    RemainderNext(k, m);
    forall x
      ensures x in t.called <==> 0 <= x < s.n && x < t.cursors[x % m]
    {
      if x % m == c && k <= x < k + m {
        RemainderAlone(k, x, m);
      }
    }
  }

  lemma FetchBounds(s: State, i: nat, c: nat, stolen: bool)
    requires Inv(s) && i < |s.threads| && c < |s.cursors|
    requires s.threads[i] == if stolen then Stealing(c) else Own
    ensures var t := FetchFrom(s, i, c, stolen); Bounded(t.cursors, CapOf(t))
  {
    var t, m := FetchFrom(s, i, c, stolen), |s.cursors|;
    MissesUpdate(s.threads, i, t.threads[i]);
    var before, after := AllMisses(s.threads), AllMisses(t.threads);
    assert after == if s.cursors[c] < s.n then before else before + 1;
    CapGrows(s.n, m, before);
  }

  lemma CapGrows(n: int, m: nat, misses: nat)
    ensures AtLeastZero(n) + m <= Cap(n, m, misses) && Cap(n, m, misses + 1) == Cap(n, m, misses) + m
  {
    assert m * (misses + 1) == m * misses + m;
    assert m * misses >= 0;
  }

  lemma FetchOwners(s: State, i: nat, c: nat, stolen: bool)
    requires Inv(s) && i < |s.threads| && c < |s.cursors|
    requires if stolen then PastOwn(s.threads[i]) else c == i
    ensures |FetchFrom(s, i, c, stolen).cursors| == |FetchFrom(s, i, c, stolen).threads|
    ensures Owners(FetchFrom(s, i, c, stolen))
  {
  }

  // Looking at a cursor and returning from the body touch nothing shared.
  lemma QuietMove(s: State, i: nat)
    requires Inv(s) && i < |s.threads| && CanMove(s, i)
    requires s.threads[i].Scanning? || s.threads[i].Storing? || s.threads[i].Calling?
    ensures Inv(Move(s, i))
  {
    var p := Move(s, i).threads[i];
    assert Move(s, i) == Set(s, i, p) && PastOwn(p) == PastOwn(s.threads[i]) && Misses(p) == Misses(s.threads[i]);
    SetInv(s, i, p);
  }

  lemma SetInv(s: State, i: nat, p: Phase)
    requires Inv(s) && i < |s.threads| && PastOwn(p) == PastOwn(s.threads[i]) && Misses(p) == Misses(s.threads[i])
    ensures Inv(Set(s, i, p))
  {
    MissesUpdate(s.threads, i, p);
  }

  lemma MoveInv(s: State, i: nat)
    requires Inv(s) && i < |s.threads| && CanMove(s, i)
    ensures Inv(Move(s, i))
  {
    match s.threads[i]
    case Own =>
      FetchCalls(s, i, i, false);
      FetchBounds(s, i, i, false);
      FetchOwners(s, i, i, false);
    case Stealing(c) =>
      FetchCalls(s, i, c, true);
      FetchBounds(s, i, c, true);
      FetchOwners(s, i, c, true);
    case _ =>
      QuietMove(s, i);
  }

  // A run under any schedule: schedule[n] is the thread that takes the n-th step.
  ghost predicate IsRun(run: seq<State>, schedule: seq<nat>) {
    && |run| == |schedule| + 1 && Init(run[0])
    && forall n :: 0 <= n < |schedule| ==>
         && schedule[n] < |run[n].threads| && CanMove(run[n], schedule[n])
         && run[n + 1] == Move(run[n], schedule[n])
  }

  lemma {:induction false} RunInv(run: seq<State>, schedule: seq<nat>, n: nat)
    requires IsRun(run, schedule) && n <= |schedule|
    ensures Inv(run[n]) && run[n].n == run[0].n && |run[n].threads| == |run[0].threads|
  {
    if n == 0 {
      InitInv(run[0]);
    } else {
      RunInv(run, schedule, n - 1);
      MoveInv(run[n - 1], schedule[n - 1]);
    }
  }

  // The body is never called twice for an index nor outside the range, and once all threads
  // have finished it has been called for every index.
  lemma ExactlyOnce(run: seq<State>, schedule: seq<nat>)
    requires IsRun(run, schedule)
    ensures var s := run[|schedule|];
      && Distinct(s.called)
      && (forall k :: k in s.called ==> 0 <= k < run[0].n)
      && ((forall i :: 0 <= i < |s.threads| ==> s.threads[i] == Finished) ==>
            forall k :: 0 <= k < run[0].n ==> k in s.called)
  {
    RunInv(run, schedule, |schedule|);
    var s := run[|schedule|];
    if forall i :: 0 <= i < |s.threads| ==> s.threads[i] == Finished {
      forall k | 0 <= k < s.n
        ensures k in s.called
      {
        assert PastOwn(s.threads[k % |s.cursors|]);
      }
    }
  }

  // No cursor passes n + T + 2 T T for T threads.
  lemma CursorBound(run: seq<State>, schedule: seq<nat>, c: nat)
    requires IsRun(run, schedule) && c < |run[|schedule|].cursors|
    ensures var m := |run[0].threads|;
      run[|schedule|].cursors[c] < AtLeastZero(run[0].n) + m + 2 * m * m
  {
    RunInv(run, schedule, |schedule|);
    AtMostTwoMisses(run[|schedule|].threads);
    CapLimit(run[0].n, |run[0].threads|, AllMisses(run[|schedule|].threads));
  }

  lemma CapLimit(n: int, m: nat, misses: nat)
    requires misses <= 2 * m
    ensures Cap(n, m, misses) <= AtLeastZero(n) + m + 2 * m * m
  {
    assert m * (2 * m - misses) >= 0;
  }

  // Where the bound fits in a long, a finished scan has chosen a cursor, so every unfinished
  // thread can move.
  ghost predicate ScansChoose(s: State) {
    forall i :: 0 <= i < |s.threads| ==>
      match s.threads[i]
      case Scanning(at, minAt, min) =>
        at <= |s.threads| && if at == 0 then minAt == -1 && min == LONG_MAX else 0 <= minAt < |s.threads|
      case Storing(at) => at < |s.threads|
      case Stealing(minAt) => 0 <= minAt < |s.threads|
      case _ => true
  }

  lemma {:induction false} RunChooses(run: seq<State>, schedule: seq<nat>, n: nat)
    requires IsRun(run, schedule) && n <= |schedule|
    requires var m := |run[0].threads|; AtLeastZero(run[0].n) + m + 2 * m * m <= LONG_MAX
    ensures ScansChoose(run[n])
  {
    if n > 0 {
      RunChooses(run, schedule, n - 1);
      RunInv(run, schedule, n - 1);
      var before := run[n - 1];
      forall c | 0 <= c < |before.cursors|
        ensures before.cursors[c] < LONG_MAX
      {
        CursorBound(run[..n], schedule[..n - 1], c);
      }
    }
  }

  lemma NeverStuck(run: seq<State>, schedule: seq<nat>, i: nat)
    requires IsRun(run, schedule) && i < |run[|schedule|].threads|
    requires var m := |run[0].threads|; AtLeastZero(run[0].n) + m + 2 * m * m <= LONG_MAX
    ensures CanMove(run[|schedule|], i) <==> run[|schedule|].threads[i] != Finished
  {
    RunInv(run, schedule, |schedule|);
    RunChooses(run, schedule, |schedule|);
  }

  // ---- termination ----

  function Rank(m: nat, p: Phase): nat {
    match p
    case Own => 2 * m + 5
    case Calling(_, stolen) => if stolen then 2 * m + 4 else 2 * m + 6
    case Scanning(at, _, _) => if at <= m then 2 * (m - at) + 3 else 0
    case Storing(at) => if at < m then 2 * (m - at) + 2 else 0
    case Stealing(_) => 2
    case Finished => 0
  }

  function Ranks(m: nat, ps: seq<Phase>): nat {
    if |ps| == 0 then 0 else Ranks(m, ps[..|ps| - 1]) + Rank(m, ps[|ps| - 1])
  }

  lemma {:induction false} RanksUpdate(m: nat, ps: seq<Phase>, i: nat, p: Phase)
    requires i < |ps|
    ensures Ranks(m, ps[i := p]) == Ranks(m, ps) - Rank(m, ps[i]) + Rank(m, p)
  {
    var n := |ps| - 1;
    if i < n {
      RanksUpdate(m, ps[..n], i, p);
      assert ps[i := p][..n] == ps[..n][i := p];
    } else {
      assert ps[i := p][..n] == ps[..n];
    }
  }

  function Measure(s: State): int {
    var m := |s.threads|;
    (2 * m + 4) * (AtLeastZero(s.n) - |s.called|) + Ranks(m, s.threads)
  }

  ghost predicate ScansInRange(s: State) {
    forall i :: 0 <= i < |s.threads| ==>
      && (s.threads[i].Scanning? ==> s.threads[i].at <= |s.threads|)
      && (s.threads[i].Storing? ==> s.threads[i].at < |s.threads|)
  }

  lemma MeasureDrops(s: State, i: nat)
    requires i < |s.threads| && CanMove(s, i) && |s.cursors| == |s.threads| && ScansInRange(s)
    ensures ScansInRange(Move(s, i)) && Measure(Move(s, i)) < Measure(s)
  {
    var t, m := Move(s, i), |s.threads|;
    RanksUpdate(m, s.threads, i, t.threads[i]);
    var left, left' := AtLeastZero(s.n) - |s.called|, AtLeastZero(t.n) - |t.called|;
    assert left' == left || left' == left - 1;
    TimesOneLess(2 * m + 4, left);
  }

  lemma {:induction false} DistinctBelow(xs: seq<int>, n: nat)
    requires Distinct(xs) && forall i :: 0 <= i < |xs| ==> 0 <= xs[i] < n
    ensures |xs| <= n
    decreases n
  {
    assert |xs| > 0 ==> 0 <= xs[0] < n;
    if n == 0 {
    } else if n - 1 in xs {
      var j :| 0 <= j < |xs| && xs[j] == n - 1;
      var ys := xs[..j] + xs[j + 1..];
      assert forall k :: 0 <= k < |ys| ==> ys[k] == if k < j then xs[k] else xs[k + 1];
      DistinctBelow(ys, n - 1);
    } else {
      DistinctBelow(xs, n - 1);
    }
  }

  lemma {:induction false} InitialRanks(m: nat, ps: seq<Phase>)
    requires forall i :: 0 <= i < |ps| ==> ps[i] == Own
    ensures Ranks(m, ps) == (2 * m + 5) * |ps|
  {
    if |ps| > 0 {
      InitialRanks(m, ps[..|ps| - 1]);
    }
  }

  lemma {:induction false} StepsBelowMeasure(run: seq<State>, schedule: seq<nat>, n: nat)
    requires IsRun(run, schedule) && n <= |schedule|
    ensures ScansInRange(run[n]) && n + Measure(run[n]) <= Measure(run[0])
  {
    if n > 0 {
      StepsBelowMeasure(run, schedule, n - 1);
      RunInv(run, schedule, n - 1);
      MeasureDrops(run[n - 1], schedule[n - 1]);
    }
  }

  // Every run is finite: it has at most (2 T + 4) n + (2 T + 5) T steps.
  lemma Terminates(run: seq<State>, schedule: seq<nat>)
    requires IsRun(run, schedule)
    ensures var m := |run[0].threads|;
      |schedule| <= (2 * m + 4) * AtLeastZero(run[0].n) + (2 * m + 5) * m
  {
    var last := run[|schedule|];
    StepsBelowMeasure(run, schedule, |schedule|);
    RunInv(run, schedule, |schedule|);
    ExactlyOnce(run, schedule);
    assert forall i :: 0 <= i < |last.called| ==> last.called[i] in last.called;
    DistinctBelow(last.called, AtLeastZero(last.n));
    InitialRanks(|run[0].threads|, run[0].threads);
    MeasureNonNegative(last);
  }

  lemma MeasureNonNegative(s: State)
    requires |s.called| <= AtLeastZero(s.n)
    ensures Measure(s) >= 0
  {
    assert (2 * |s.threads| + 4) * (AtLeastZero(s.n) - |s.called|) >= 0;
  }

  // ---- a steal without interference ----

  // Thread i takes a step if it can.
  function Turn(i: nat): State -> State {
    (t: State) => if i < |t.threads| && CanMove(t, i) then Move(t, i) else t
  }

  // The state after m turns, when no other thread moves.
  function After(s: State, turn: State -> State, m: nat): State {
    if m == 0 then s else turn(After(s, turn, m - 1))
  }

  lemma {:induction false} AfterSum(s: State, turn: State -> State, a: nat, b: nat)
    ensures After(s, turn, a + b) == After(After(s, turn, a), turn, b)
    decreases b
  {
    if b > 0 {
      AfterSum(s, turn, a, b - 1);
      assert a + b - 1 == a + (b - 1);
    }
  }

  // c is the first of the lowest cursors.
  predicate FirstLowest(cursors: seq<int>, c: nat) {
    && c < |cursors|
    && forall d :: 0 <= d < |cursors| ==> if d < c then cursors[c] < cursors[d] else cursors[c] <= cursors[d]
  }

  // What the scan knows when it has looked at the first i cursors.
  ghost predicate ScannedUpTo(cursors: seq<int>, i: nat, minI: int, min: int) {
    && i <= |cursors|
    && if i == 0 then minI == -1 && min == LONG_MAX
       else 0 <= minI < i && min == cursors[minI] && FirstLowest(cursors[..i], minI)
  }

  lemma ScanNext(cursors: seq<int>, i: nat, minI: int, min: int)
    requires ScannedUpTo(cursors, i, minI, min) && i < |cursors| && cursors[i] < LONG_MAX
    ensures if min > cursors[i] then ScannedUpTo(cursors, i + 1, i, cursors[i]) else ScannedUpTo(cursors, i + 1, minI, min)
  {
  }

  // What a steal from cursor c leaves, and returns.
  ghost predicate Stolen(before: seq<int>, after: seq<int>, n: int, c: nat, k: int) {
    && FirstLowest(before, c) && after == before[c := before[c] + |before|]
    && k == if before[c] >= n then -1 else before[c]
  }

  // Scans the cursors, and fetches from the first of the lowest.
  method StealWork(w: array<int>, n: int) returns (k: int, ghost c: nat)
    requires 0 < w.Length && forall d :: 0 <= d < w.Length ==> w[d] < LONG_MAX
    modifies w
    ensures Stolen(old(w[..]), w[..], n, c, k)
  {
    ghost var cursors := w[..];
    var minI, min, i := -1, LONG_MAX, 0;
    while i < w.Length
      invariant w[..] == cursors && ScannedUpTo(cursors, i, minI, min)
    {
      ScanNext(cursors, i, minI, min);
      if min > w[i] {
        min := w[i];
        minI := i;
      }
      i := i + 1;
    }
    assert cursors[..i] == cursors;
    c := minI;
    k := w[minI];
    w[minI] := k + w.Length;
    if k >= n {
      k := -1;
    }
  }

  // A steal finds nothing exactly when no cursor is below n.
  lemma NothingLeft(before: seq<int>, after: seq<int>, n: int, c: nat, k: int)
    requires Stolen(before, after, n, c, k) && forall d :: 0 <= d < |before| ==> 0 <= before[d]
    ensures k == -1 <==> forall d :: 0 <= d < |before| ==> before[d] >= n
  {
    assert forall d :: 0 <= d < |before| ==> before[c] <= before[d];
  }

  lemma SetTwice(s: State, me: nat, a: Phase, b: Phase)
    requires me < |s.threads|
    ensures Set(Set(s, me, a), me, b) == Set(s, me, b)
  {
    assert s.threads[me := a][me := b] == s.threads[me := b];
  }

  lemma SetSame(s: State, me: nat)
    requires me < |s.threads|
    ensures Set(s, me, s.threads[me]) == s
  {
    assert s.threads[me := s.threads[me]] == s.threads;
  }

  // Turns of thread i alone take the state s to t.
  ghost predicate Leads(s: State, i: nat, t: State) {
    exists m: nat :: After(s, Turn(i), m) == t
  }

  lemma LeadsOn(s: State, i: nat, t: State, u: State)
    requires Leads(s, i, t) && Leads(t, i, u)
    ensures Leads(s, i, u)
  {
    var a: nat :| After(s, Turn(i), a) == t;
    var b: nat :| After(t, Turn(i), b) == u;
    AfterSum(s, Turn(i), a, b);
  }

  lemma MoveLeads(s: State, i: nat)
    requires i < |s.threads| && CanMove(s, i)
    ensures Leads(s, i, Move(s, i))
  {
    assert After(s, Turn(i), 0) == s;
    assert After(s, Turn(i), 1) == Turn(i)(s) == Move(s, i);
  }

  // Looking at one cursor takes one step or two.
  lemma LookAlone(s: State, me: nat, i: nat, low: int, min: int)
    requires me < |s.threads| == |s.cursors| && i < |s.cursors|
    ensures Leads(Set(s, me, Scanning(i, low, min)), me,
      Set(s, me, if min > s.cursors[i] then Scanning(i + 1, i, s.cursors[i]) else Scanning(i + 1, low, min)))
  {
    var t := Set(s, me, Scanning(i, low, min));
    MoveLeads(t, me);
    if min > s.cursors[i] {
      var u := Set(s, me, Storing(i));
      SetTwice(s, me, Scanning(i, low, min), Storing(i));
      MoveLeads(u, me);
      SetTwice(s, me, Storing(i), Scanning(i + 1, i, s.cursors[i]));
      LeadsOn(t, me, u, Move(u, me));
    } else {
      SetTwice(s, me, Scanning(i, low, min), Scanning(i + 1, low, min));
    }
  }

  // Undisturbed a thread that scans comes to know what the scan finds.
  lemma {:induction false} ScanAlone(s: State, me: nat, i: nat) returns (low: int, min: int)
    requires me < |s.threads| == |s.cursors| && s.threads[me] == Scanning(0, -1, LONG_MAX) && i <= |s.cursors|
    requires forall d :: 0 <= d < |s.cursors| ==> s.cursors[d] < LONG_MAX
    ensures ScannedUpTo(s.cursors, i, low, min)
    ensures Leads(s, me, Set(s, me, Scanning(i, low, min)))
  {
    if i == 0 {
      low, min := -1, LONG_MAX;
      SetSame(s, me);
      assert After(s, Turn(me), 0) == s;
    } else {
      low, min := ScanAlone(s, me, i - 1);
      var t := Set(s, me, Scanning(i - 1, low, min));
      ScanNext(s.cursors, i - 1, low, min);
      LookAlone(s, me, i - 1, low, min);
      if min > s.cursors[i - 1] {
        low, min := i - 1, s.cursors[i - 1];
      }
      LeadsOn(s, me, t, Set(s, me, Scanning(i, low, min)));
    }
  }

  lemma FirstLowestUnique(cursors: seq<int>, a: nat, b: nat)
    requires FirstLowest(cursors, a) && FirstLowest(cursors, b)
    ensures a == b
  {
    assert cursors[a] <= cursors[b] && cursors[b] <= cursors[a];
  }

  // Then it has chosen the first of the lowest cursors.
  lemma ChosenAlone(s: State, me: nat, c: nat)
    requires me < |s.threads| == |s.cursors| && s.threads[me] == Scanning(0, -1, LONG_MAX)
    requires forall d :: 0 <= d < |s.cursors| ==> s.cursors[d] < LONG_MAX
    requires FirstLowest(s.cursors, c)
    ensures Leads(s, me, Set(s, me, Stealing(c)))
  {
    var m := |s.cursors|;
    var low, min := ScanAlone(s, me, m);
    assert s.cursors[..m] == s.cursors;
    FirstLowestUnique(s.cursors, low, c);
    var scanned := Set(s, me, Scanning(m, low, min));
    MoveLeads(scanned, me);
    SetTwice(s, me, Scanning(m, low, min), Stealing(c));
    LeadsOn(s, me, scanned, Set(s, me, Stealing(c)));
  }

  lemma StealMove(s: State, me: nat, after: seq<int>, c: nat, k: int)
    requires me < |s.threads| == |s.cursors| && Stolen(s.cursors, after, s.n, c, k) && 0 <= s.cursors[c]
    ensures var t := Set(s, me, Stealing(c));
      && CanMove(t, me) && Move(t, me).cursors == after && |Move(t, me).threads| == |s.threads|
      && Move(t, me).threads[me] == if k == -1 then Finished else Calling(k, true)
  {
  }

  // A steal is, undisturbed, a sequence of steps of one thread, which then runs what it stole
  // or is finished.
  lemma StealAlone(s: State, me: nat, after: seq<int>, c: nat, k: int) returns (t: State)
    requires me < |s.threads| == |s.cursors| && s.threads[me] == Scanning(0, -1, LONG_MAX)
    requires forall d :: 0 <= d < |s.cursors| ==> 0 <= s.cursors[d] < LONG_MAX
    requires Stolen(s.cursors, after, s.n, c, k)
    ensures Leads(s, me, t)
    ensures t.cursors == after && |t.threads| == |s.threads|
    ensures t.threads[me] == if k == -1 then Finished else Calling(k, true)
  {
    var chosen := Set(s, me, Stealing(c));
    ChosenAlone(s, me, c);
    StealMove(s, me, after, c, k);
    MoveLeads(chosen, me);
    t := Move(chosen, me);
    LeadsOn(s, me, chosen, t);
  }

  // A thread whose own fetch finds nothing goes on to steal.
  lemma StealAfterMiss(s: State, me: nat, after: seq<int>, c: nat, k: int) returns (t: State)
    requires me < |s.threads| == |s.cursors| && s.threads[me] == Own && s.n <= s.cursors[me]
    requires forall d :: 0 <= d < |s.cursors| ==> 0 <= s.cursors[d] && s.cursors[d] + |s.cursors| < LONG_MAX
    requires Stolen(s.cursors[me := s.cursors[me] + |s.threads|], after, s.n, c, k)
    ensures Leads(s, me, t)
    ensures t.cursors == after && |t.threads| == |s.threads|
    ensures t.threads[me] == if k == -1 then Finished else Calling(k, true)
  {
    var u := Move(s, me);
    MoveLeads(s, me);
    assert u.cursors == s.cursors[me := s.cursors[me] + |s.threads|];
    t := StealAlone(u, me, after, c, k);
    LeadsOn(s, me, u, t);
  }

  // Thread i finishes at step n, by a steal that finds nothing.
  ghost predicate StealsNothing(run: seq<State>, schedule: seq<nat>, n: nat, i: nat)
    requires n < |schedule| && n < |run|
  {
    && schedule[n] == i && i < |run[n].threads| && run[n].threads[i].Stealing?
    && var c := run[n].threads[i].minAt;
       0 <= c < |run[n].cursors| && run[n].n <= run[n].cursors[c]
  }

  // In every run a thread has finished exactly when it has stolen in vain.
  lemma {:induction false} FinishedExactly(run: seq<State>, schedule: seq<nat>, m: nat, i: nat)
    requires IsRun(run, schedule) && m <= |schedule| && i < |run[0].threads|
    ensures |run[m].threads| == |run[0].threads|
    ensures run[m].threads[i] == Finished <==> exists n: nat :: n < m && StealsNothing(run, schedule, n, i)
  {
    RunInv(run, schedule, m);
    if m > 0 {
      FinishedExactly(run, schedule, m - 1, i);
      FinishingMove(run[m - 1], schedule[m - 1], i);
      assert StealsNothing(run, schedule, m - 1, i) ==> run[m].threads[i] == Finished;
      assert run[m].threads[i] == Finished && run[m - 1].threads[i] != Finished ==> StealsNothing(run, schedule, m - 1, i);
    }
  }

  lemma FinishingMove(s: State, w: nat, i: nat)
    requires w < |s.threads| && CanMove(s, w) && i < |s.threads| == |s.cursors|
    ensures |Move(s, w).threads| == |s.threads|
    ensures Move(s, w).threads[i] == Finished <==>
      (s.threads[i] == Finished
       || (w == i && s.threads[i].Stealing? && 0 <= s.threads[i].minAt < |s.cursors| && s.n <= s.cursors[s.threads[i].minAt]))
  {
  }

  // ---- one thread or none ----

  // Without a second thread the body is called in a plain loop.
  method CallInOrder(n: int) returns (called: seq<int>)
    ensures |called| == AtLeastZero(n) && forall k :: 0 <= k < n ==> called[k] == k
  {
    called := [];
    var j := 0;
    while j < n
      invariant 0 <= j <= AtLeastZero(n) && |called| == j
      invariant forall k :: 0 <= k < j ==> called[k] == k
    {
      called := called + [j];
      j := j + 1;
    }
  }
}
