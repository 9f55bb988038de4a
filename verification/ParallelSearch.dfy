/** The worker threads of the fuzzy search: batches handed out under a lock, a sort per worker,
    and the merging joins. */
module ParallelSearch {
  import opened Wrappers
  import opened Bytes
  import opened FuzzyMatch
  import opened FuzzySearch
  import opened Arithmetic
  import B = BinomialJoin

  // What a worker records for one choice: nothing unless the greedy test accepts it.
  method EvaluateChoice(search: seq<byte>, text: seq<byte>, addr: nat) returns (r: Option<Scored>)
    ensures r.Some? <==> exists p :: AcceptedAt(search, text, p)
    ensures r.Some? ==> r.value.addr == addr && IsMatchScore(search, text, r.value.score)
  {
    var accepted := HasMatch(search, text);
    if accepted {
      var score := MatchScore(search, text);
      return Some(Scored(addr, score));
    }
    return None;
  }

  // Choices next, ..., end - 1 of the current batch are still to be looked at.
  datatype Batch = Batch(next: nat, end: nat)

  // table[i] is what is recorded for choice i; own[w] is what worker w has recorded itself.
  datatype State = State(
    table: seq<Option<Scored>>, join: B.State, processed: nat, fetched: seq<Batch>,
    batches: seq<Batch>, lists: seq<seq<Scored>>, own: seq<multiset<Scored>>)

  datatype Action =
    | Create
    | Fetch(w: nat)
    | Examine(w: nat)
    | Sort(w: nat, sorted: seq<Scored>)
    | JoinNext(w: nat)
    | Stop(w: nat)
    | MainJoin

  function Min(a: nat, b: nat): nat {
    if a < b then a else b
  }

  ghost predicate Init(s: State) {
    && B.Init(s.join)
    && |s.batches| == |s.lists| == |s.own| == s.join.count
    && (forall w :: 0 <= w < s.join.count ==>
          s.batches[w] == Batch(0, 0) && s.lists[w] == [] && s.own[w] == multiset{})
    && s.processed == 0 && s.fetched == []
  }

  ghost predicate Shape(s: State) {
    && |s.batches| == |s.lists| == |s.own| == s.join.count == |s.join.workers|
    && s.processed <= |s.table|
  }

  ghost predicate Idle(s: State, w: nat)
    requires Shape(s)
  {
    w < s.join.count && s.join.workers[w].Busy? && s.batches[w].next == s.batches[w].end
  }

  ghost predicate Enabled(s: State, a: Action) {
    && Shape(s)
    && match a
       case Create => B.Enabled(s.join, B.Create)
       case Fetch(w) => Idle(s, w) && s.processed < |s.table|
       case Examine(w) =>
         w < s.join.count && s.join.workers[w].Busy? && s.batches[w].next < s.batches[w].end <= |s.table|
       // the last fetch returned an empty batch, and qsort put the list in order
       case Sort(w, sorted) =>
         Idle(s, w) && s.processed == |s.table| && Sorted(sorted) && multiset(sorted) == multiset(s.lists[w])
       case JoinNext(w) => B.Enabled(s.join, B.JoinNext(w))
       case Stop(w) => B.Enabled(s.join, B.Stop(w))
       case MainJoin => B.Enabled(s.join, B.MainJoin)
  }

  // The batch handed out when processed choices have been handed out before.
  function NextBatch(processed: nat, size: nat): Batch {
    Batch(processed, Min(processed + BATCH, size))
  }

  ghost function Apply(s: State, a: Action): State
    requires Enabled(s, a)
  {
    match a
    case Create => s.(join := B.Apply(s.join, B.Create))
    case Fetch(w) =>
      var b := NextBatch(s.processed, |s.table|);
      s.(processed := b.end, fetched := s.fetched + [b], batches := s.batches[w := b])
    case Examine(w) =>
      var b := s.batches[w];
      var t := s.(batches := s.batches[w := Batch(b.next + 1, b.end)]);
      (match s.table[b.next]
       case None => t
       case Some(x) => t.(lists := s.lists[w := s.lists[w] + [x]], own := s.own[w := s.own[w] + multiset{x}]))
    case Sort(w, sorted) =>
      s.(join := B.Apply(s.join, B.FinishWork(w)), lists := s.lists[w := sorted])
    case JoinNext(w) =>
      var next := B.Partner(w, s.join.workers[w].rounds);
      s.(join := B.Apply(s.join, B.JoinNext(w)), lists := s.lists[w := Merged(s.lists[w], s.lists[next])])
    case Stop(w) => s.(join := B.Apply(s.join, B.Stop(w)))
    case MainJoin => s.(join := B.Apply(s.join, B.MainJoin))
  }

  // ---- what is where ----

  // How many of the choices lo, ..., hi - 1 record x.
  ghost function MatchCount(table: seq<Option<Scored>>, lo: nat, hi: nat, x: Scored): nat
    requires hi <= |table|
    decreases hi
  {
    if hi <= lo then 0 else MatchCount(table, lo, hi - 1, x) + (if table[hi - 1] == Some(x) then 1 else 0)
  }

  lemma {:induction false} MatchSplit(table: seq<Option<Scored>>, lo: nat, mid: nat, hi: nat, x: Scored)
    requires lo <= mid <= hi <= |table|
    ensures MatchCount(table, lo, hi, x) == MatchCount(table, lo, mid, x) + MatchCount(table, mid, hi, x)
    decreases hi
  {
    if mid < hi {
      MatchSplit(table, lo, mid, hi - 1, x);
    }
  }

  // How often the workers lo, ..., hi - 1 have recorded x.
  ghost function OwnCount(own: seq<multiset<Scored>>, lo: nat, hi: nat, x: Scored): nat
    requires hi <= |own|
    decreases hi
  {
    if hi <= lo then 0 else OwnCount(own, lo, hi - 1, x) + own[hi - 1][x]
  }

  lemma {:induction false} OwnSplit(own: seq<multiset<Scored>>, lo: nat, mid: nat, hi: nat, x: Scored)
    requires lo <= mid <= hi <= |own|
    ensures OwnCount(own, lo, hi, x) == OwnCount(own, lo, mid, x) + OwnCount(own, mid, hi, x)
    decreases hi
  {
    if mid < hi {
      OwnSplit(own, lo, mid, hi - 1, x);
    }
  }

  lemma {:induction false} OwnSame(own: seq<multiset<Scored>>, own': seq<multiset<Scored>>, lo: nat, hi: nat, x: Scored)
    requires hi <= |own| == |own'| && forall k :: lo <= k < hi ==> own[k] == own'[k]
    ensures OwnCount(own, lo, hi, x) == OwnCount(own', lo, hi, x)
    decreases hi
  {
    if lo < hi {
      OwnSame(own, own', lo, hi - 1, x);
    }
  }

  // The list holds what the workers lo, ..., hi - 1 have recorded.
  ghost predicate Holds(l: seq<Scored>, own: seq<multiset<Scored>>, lo: nat, hi: nat)
    requires hi <= |own|
  {
    forall x :: multiset(l)[x] == OwnCount(own, lo, hi, x)
  }

  // How often worker w has recorded x, or has yet to record it from its batch.
  ghost function Share(s: State, w: nat, x: Scored): nat
    requires Shape(s) && w < s.join.count && s.batches[w].end <= |s.table|
  {
    s.own[w][x] + MatchCount(s.table, s.batches[w].next, s.batches[w].end, x)
  }

  ghost predicate BatchesFit(s: State)
    requires Shape(s)
  {
    forall w :: 0 <= w < s.join.count ==> s.batches[w].next <= s.batches[w].end <= s.processed
  }

  ghost function Shares(s: State, n: nat, x: Scored): nat
    requires Shape(s) && BatchesFit(s) && n <= s.join.count
  {
    if n == 0 then 0 else Shares(s, n - 1, x) + Share(s, n - 1, x)
  }

  // Every choice handed out is recorded, or about to be, as often as it should.
  ghost predicate Accounted(s: State)
    requires Shape(s) && BatchesFit(s)
  {
    forall x :: Shares(s, s.join.count, x) == MatchCount(s.table, 0, s.processed, x)
  }

  // The batches handed out follow each other without gap or overlap.
  ghost predicate Consecutive(fetched: seq<Batch>, processed: nat) {
    && (forall k :: 0 <= k < |fetched| ==>
          && fetched[k].next < fetched[k].end <= fetched[k].next + BATCH
          && fetched[k].next == if k == 0 then 0 else fetched[k - 1].end)
    && processed == if |fetched| == 0 then 0 else fetched[|fetched| - 1].end
  }

  ghost predicate ListOk(s: State, w: nat)
    requires Shape(s) && w < s.join.count
  {
    match s.join.workers[w]
    case NotCreated => s.batches[w].next == s.batches[w].end && multiset(s.lists[w]) == s.own[w]
    case Busy => multiset(s.lists[w]) == s.own[w]
    case _ =>
      && s.batches[w].next == s.batches[w].end
      && s.processed == |s.table|
      && w <= B.CoverEnd(s.join.count, w, s.join.workers[w].rounds)
      && Sorted(s.lists[w])
      && Holds(s.lists[w], s.own, w, B.CoverEnd(s.join.count, w, s.join.workers[w].rounds))
  }

  ghost predicate Inv(s: State) {
    && Shape(s) && BatchesFit(s) && B.Inv(s.join)
    && (forall w {:trigger ListOk(s, w)} :: 0 <= w < s.join.count ==> ListOk(s, w))
    && Accounted(s)
    && Consecutive(s.fetched, s.processed)
  }

  lemma {:induction false} NoShares(s: State, n: nat, x: Scored)
    requires Shape(s) && BatchesFit(s) && n <= s.join.count
    requires forall w :: 0 <= w < n ==> s.batches[w] == Batch(0, 0) && s.own[w] == multiset{}
    ensures Shares(s, n, x) == 0
  {
    if n > 0 {
      NoShares(s, n - 1, x);
    }
  }

  lemma InitInv(s: State)
    requires Init(s)
    ensures Inv(s)
  {
    B.InitInv(s.join);
    forall x
      ensures Shares(s, s.join.count, x) == 0
    {
      NoShares(s, s.join.count, x);
    }
    forall w | 0 <= w < s.join.count
      ensures ListOk(s, w)
    {
    }
  }

  // Only worker w's share changes, by what is added.
  lemma {:induction false} SharesGrow(s: State, t: State, w: nat, added: nat, n: nat, x: Scored)
    requires Shape(s) && BatchesFit(s) && Shape(t) && BatchesFit(t)
    requires s.table == t.table && s.join.count == t.join.count && w < s.join.count && n <= s.join.count
    requires forall k :: 0 <= k < s.join.count && k != w ==> s.batches[k] == t.batches[k] && s.own[k] == t.own[k]
    requires Share(t, w, x) == Share(s, w, x) + added
    ensures Shares(t, n, x) == Shares(s, n, x) + (if w < n then added else 0)
  {
    if n > 0 {
      SharesGrow(s, t, w, added, n - 1, x);
    }
  }

  lemma {:induction false} SharesSame(s: State, t: State, n: nat, x: Scored)
    requires Shape(s) && BatchesFit(s) && Shape(t) && BatchesFit(t)
    requires s.table == t.table && s.join.count == t.join.count && n <= s.join.count
    requires s.batches == t.batches && s.own == t.own
    ensures Shares(t, n, x) == Shares(s, n, x)
  {
    if n > 0 {
      SharesSame(s, t, n - 1, x);
    }
  }

  lemma StaysAccounted(s: State, t: State)
    requires Inv(s) && Shape(t) && BatchesFit(t)
    requires s.table == t.table && s.join.count == t.join.count && s.processed == t.processed
    requires s.batches == t.batches && s.own == t.own
    ensures Accounted(t)
  {
    forall x
      ensures Shares(t, t.join.count, x) == MatchCount(t.table, 0, t.processed, x)
    {
      SharesSame(s, t, s.join.count, x);
    }
  }

  // Once a worker no longer works, neither do those it covers.
  lemma CoveredAreDone(s: State, w: nat)
    requires Inv(s) && w < s.join.count && B.PastWork(s.join.workers[w])
    ensures w < B.CoverEnd(s.join.count, w, s.join.workers[w].rounds) <= s.join.count
    ensures forall k :: w < k < B.CoverEnd(s.join.count, w, s.join.workers[w].rounds) ==> s.join.workers[k].Done?
  {
    assert B.Covers(s.join, w);
  }

  // What a worker in its loop does leaves every other list as it was.
  lemma OthersKeepLists(s: State, t: State, w: nat, k: nat)
    requires Inv(s) && Shape(t) && s.table == t.table && s.join == t.join
    requires w < s.join.count && s.join.workers[w].Busy? && k < s.join.count && k != w
    requires t.batches[k] == s.batches[k] && t.lists[k] == s.lists[k]
    requires forall j :: 0 <= j < s.join.count && j != w ==> s.own[j] == t.own[j]
    requires B.PastWork(s.join.workers[k]) ==> t.processed == s.processed
    ensures ListOk(t, k)
  {
    assert ListOk(s, k);
    if B.PastWork(s.join.workers[k]) {
      CoveredAreDone(s, k);
      var end := B.CoverEnd(s.join.count, k, s.join.workers[k].rounds);
      forall x
        ensures multiset(t.lists[k])[x] == OwnCount(t.own, k, end, x)
      {
        OwnSame(s.own, t.own, k, end, x);
      }
    }
  }

  lemma FetchShares(s: State, w: nat)
    requires Inv(s) && Enabled(s, Fetch(w))
    ensures var t := Apply(s, Fetch(w)); Shape(t) && BatchesFit(t) && Accounted(t)
  {
    var t := Apply(s, Fetch(w));
    forall x
      ensures Shares(t, t.join.count, x) == MatchCount(t.table, 0, t.processed, x)
    {
      SharesGrow(s, t, w, MatchCount(s.table, s.processed, t.processed, x), s.join.count, x);
      MatchSplit(s.table, 0, s.processed, t.processed, x);
    }
  }

  lemma FetchInv(s: State, w: nat)
    requires Inv(s) && Enabled(s, Fetch(w))
    ensures Inv(Apply(s, Fetch(w)))
  {
    var t := Apply(s, Fetch(w));
    FetchShares(s, w);
    forall k | 0 <= k < t.join.count
      ensures ListOk(t, k)
    {
      assert ListOk(s, k);
      if k != w {
        OthersKeepLists(s, t, w, k);
      }
    }
  }

  lemma ExamineShares(s: State, w: nat)
    requires Inv(s) && Enabled(s, Examine(w))
    ensures var t := Apply(s, Examine(w)); Shape(t) && BatchesFit(t) && Accounted(t)
  {
    var t, b := Apply(s, Examine(w)), s.batches[w];
    forall x
      ensures Shares(t, t.join.count, x) == MatchCount(t.table, 0, t.processed, x)
    {
      MatchSplit(s.table, b.next, b.next + 1, b.end, x);
      assert MatchCount(s.table, b.next, b.next, x) == 0;
      SharesGrow(s, t, w, 0, s.join.count, x);
    }
  }

  lemma ExamineInv(s: State, w: nat)
    requires Inv(s) && Enabled(s, Examine(w))
    ensures Inv(Apply(s, Examine(w)))
  {
    var t := Apply(s, Examine(w));
    ExamineShares(s, w);
    forall k | 0 <= k < t.join.count
      ensures ListOk(t, k)
    {
      assert ListOk(s, k);
      if k != w {
        OthersKeepLists(s, t, w, k);
      }
    }
  }

  lemma SortInv(s: State, w: nat, sorted: seq<Scored>)
    requires Inv(s) && Enabled(s, Sort(w, sorted))
    ensures Inv(Apply(s, Sort(w, sorted)))
  {
    var t := Apply(s, Sort(w, sorted));
    B.ApplyInv(s.join, B.FinishWork(w));
    StaysAccounted(s, t);
    forall k | 0 <= k < t.join.count
      ensures ListOk(t, k)
    {
      assert ListOk(s, k);
      if k == w {
        assert Pow2(0) == 1;
        assert forall x :: OwnCount(s.own, w, w + 1, x) == OwnCount(s.own, w, w, x) + s.own[w][x];
      }
    }
  }

  // Joining adds exactly what the partner covers.
  lemma PartnerList(s: State, w: nat) returns (next: nat, mid: nat, end: nat)
    requires Inv(s) && Enabled(s, JoinNext(w))
    ensures var r := s.join.workers[w].rounds;
      && next == B.Partner(w, r) == mid == B.CoverEnd(s.join.count, w, r)
      && end == B.CoverEnd(s.join.count, w, r + 1)
      && w <= mid < s.join.count && mid <= end <= s.join.count
      && Sorted(s.lists[w]) && Holds(s.lists[w], s.own, w, mid)
      && Sorted(s.lists[next]) && Holds(s.lists[next], s.own, mid, end)
  {
    var j, r := s.join, s.join.workers[w].rounds;
    B.LeavesRule(j.count, w, r);
    next := w + Pow2(r);
    mid, end := next, B.CoverEnd(j.count, w, r + 1);
    assert B.Covers(j, next);
    B.PartnerCovers(j.count, w, r, j.workers[next].rounds);
    assert ListOk(s, w) && ListOk(s, next);
  }

  lemma MergedHolds(a: seq<Scored>, b: seq<Scored>, own: seq<multiset<Scored>>, lo: nat, mid: nat, hi: nat)
    requires lo <= mid <= hi <= |own| && Holds(a, own, lo, mid) && Holds(b, own, mid, hi)
    ensures Holds(Merged(a, b), own, lo, hi)
  {
    MergedElements(a, b);
    forall x
      ensures multiset(Merged(a, b))[x] == OwnCount(own, lo, hi, x)
    {
      OwnSplit(own, lo, mid, hi, x);
    }
  }

  lemma JoinList(s: State, w: nat)
    requires Inv(s) && Enabled(s, JoinNext(w))
    ensures ListOk(Apply(s, JoinNext(w)), w)
  {
    var next, mid, end := PartnerList(s, w);
    assert ListOk(s, w);
    MergedSorted(s.lists[w], s.lists[next]);
    MergedHolds(s.lists[w], s.lists[next], s.own, w, mid, end);
  }

  lemma JoinInv(s: State, w: nat)
    requires Inv(s) && Enabled(s, JoinNext(w))
    ensures Inv(Apply(s, JoinNext(w)))
  {
    var t := Apply(s, JoinNext(w));
    B.ApplyInv(s.join, B.JoinNext(w));
    StaysAccounted(s, t);
    forall k | 0 <= k < t.join.count
      ensures ListOk(t, k)
    {
      assert ListOk(s, k);
      if k == w {
        JoinList(s, w);
      }
    }
  }

  // Creating, stopping and main's join move no results.
  lemma QuietInv(s: State, a: Action, b: B.Action)
    requires Inv(s) && Enabled(s, a) && (b == B.Create || b.Stop? || b == B.MainJoin)
    requires B.Enabled(s.join, b) && Apply(s, a) == s.(join := B.Apply(s.join, b))
    ensures Inv(Apply(s, a))
  {
    var t := Apply(s, a);
    B.ApplyInv(s.join, b);
    StaysAccounted(s, t);
    forall k | 0 <= k < t.join.count
      ensures ListOk(t, k)
    {
      assert ListOk(s, k);
    }
  }

  lemma ApplyInv(s: State, a: Action)
    requires Inv(s) && Enabled(s, a)
    ensures Inv(Apply(s, a))
  {
    match a
    case Create => QuietInv(s, a, B.Create);
    case Fetch(w) => FetchInv(s, w);
    case Examine(w) => ExamineInv(s, w);
    case Sort(w, sorted) => SortInv(s, w, sorted);
    case JoinNext(w) => JoinInv(s, w);
    case Stop(w) => QuietInv(s, a, B.Stop(w));
    case MainJoin => QuietInv(s, a, B.MainJoin);
  }

  ghost predicate IsRun(run: seq<State>, actions: seq<Action>) {
    && |run| == |actions| + 1 && Init(run[0])
    && forall n :: 0 <= n < |actions| ==> Enabled(run[n], actions[n]) && run[n + 1] == Apply(run[n], actions[n])
  }

  lemma {:induction false} RunInv(run: seq<State>, actions: seq<Action>, n: nat)
    requires IsRun(run, actions) && n <= |actions|
    ensures Inv(run[n]) && run[n].table == run[0].table && run[n].join.count == run[0].join.count
  {
    if n == 0 {
      InitInv(run[0]);
    } else {
      RunInv(run, actions, n - 1);
      ApplyInv(run[n - 1], actions[n - 1]);
    }
  }

  lemma {:induction false} SharesAreOwn(s: State, n: nat, x: Scored)
    requires Shape(s) && BatchesFit(s) && n <= s.join.count
    requires forall w :: 0 <= w < n ==> s.batches[w].next == s.batches[w].end
    ensures Shares(s, n, x) == OwnCount(s.own, 0, n, x)
  {
    if n > 0 {
      SharesAreOwn(s, n - 1, x);
    }
  }

  // When the search returns, worker 0 holds the sorted list of exactly the recorded choices, and
  // the batches have cut the choices into consecutive pieces.
  lemma SearchResult(run: seq<State>, actions: seq<Action>)
    requires IsRun(run, actions) && run[|actions|].join.mainDone
    ensures var s, table := run[|actions|], run[0].table;
      && 0 < |s.lists|
      && Sorted(s.lists[0])
      && (forall i, j :: 0 <= i < j < |s.lists[0]| ==> BestFirst(s.lists[0][i], s.lists[0][j]))
      && (forall x :: multiset(s.lists[0])[x] == MatchCount(table, 0, |table|, x))
      && Consecutive(s.fetched, |table|)
  {
    RunInv(run, actions, |actions|);
    var s := run[|actions|];
    B.RootCoversAll(s.join);
    forall w | 0 <= w < s.join.count
      ensures s.batches[w].next == s.batches[w].end && s.processed == |s.table|
    {
      assert ListOk(s, w);
    }
    assert ListOk(s, 0);
    forall i, j | 0 <= i < j < |s.lists[0]|
      ensures BestFirst(s.lists[0][i], s.lists[0][j])
    {
      NotAfterIsBest(s.lists[0][i], s.lists[0][j]);
    }
    forall x
      ensures multiset(s.lists[0])[x] == MatchCount(s.table, 0, |s.table|, x)
    {
      SharesAreOwn(s, s.join.count, x);
    }
  }

  // So neither the number of workers nor the schedule matters.
  lemma ScheduleIndependent(run: seq<State>, actions: seq<Action>, run': seq<State>, actions': seq<Action>)
    requires IsRun(run, actions) && run[|actions|].join.mainDone
    requires IsRun(run', actions') && run'[|actions'|].join.mainDone
    requires run[0].table == run'[0].table
    ensures 0 < |run[|actions|].lists| && 0 < |run'[|actions'|].lists|
    ensures run[|actions|].lists[0] == run'[|actions'|].lists[0]
  {
    SearchResult(run, actions);
    SearchResult(run', actions');
    var a, b := run[|actions|].lists[0], run'[|actions'|].lists[0];
    assert forall x :: multiset(a)[x] == multiset(b)[x];
    SortedUnique(a, b);
  }

  // The result x belongs to the choice with this text and address.
  ghost predicate ResultFor(search: seq<byte>, text: seq<byte>, addr: nat, x: Scored) {
    && (exists p :: AcceptedAt(search, text, p))
    && x.addr == addr && IsMatchScore(search, text, x.score)
  }

  // The table is what evaluating every choice yields.
  ghost predicate TableFor(search: seq<byte>, texts: seq<seq<byte>>, addrs: seq<nat>, table: seq<Option<Scored>>) {
    && |texts| == |addrs| == |table|
    && forall i :: 0 <= i < |table| ==>
         match table[i]
         case None => forall p :: !AcceptedAt(search, texts[i], p)
         case Some(x) => ResultFor(search, texts[i], addrs[i], x)
  }

  lemma {:induction false} CountedSomewhere(table: seq<Option<Scored>>, hi: nat, x: Scored)
    requires hi <= |table|
    ensures MatchCount(table, 0, hi, x) > 0 <==> exists i :: 0 <= i < hi && table[i] == Some(x)
  {
    if hi > 0 {
      CountedSomewhere(table, hi - 1, x);
    }
  }

  // A choice is in the result with its score exactly when the greedy test accepts it.
  lemma ResultIsAccepted(search: seq<byte>, texts: seq<seq<byte>>, addrs: seq<nat>,
                         run: seq<State>, actions: seq<Action>, x: Scored)
    requires IsRun(run, actions) && run[|actions|].join.mainDone
    requires TableFor(search, texts, addrs, run[0].table)
    ensures 0 < |run[|actions|].lists|
    ensures x in run[|actions|].lists[0] <==>
      exists i :: 0 <= i < |texts| && ResultFor(search, texts[i], addrs[i], x)
  {
    SearchResult(run, actions);
    var table := run[0].table;
    CountedSomewhere(table, |table|, x);
    assert x in run[|actions|].lists[0] <==> multiset(run[|actions|].lists[0])[x] > 0;
    forall i | 0 <= i < |texts|
      ensures table[i] == Some(x) <==> ResultFor(search, texts[i], addrs[i], x)
    {
      if ResultFor(search, texts[i], addrs[i], x) {
        MatchScoreUnique(search, texts[i], table[i].value.score, x.score);
      }
    }
  }

  // ---- termination ----

  lemma {:induction false} SortExists(l: seq<Scored>) returns (sorted: seq<Scored>)
    ensures Sorted(sorted) && multiset(sorted) == multiset(l)
  {
    if |l| == 0 {
      return [];
    }
    var rest := SortExists(l[1..]);
    MergedSorted([l[0]], rest);
    MergedElements([l[0]], rest);
    assert l == [l[0]] + l[1..];
    return Merged([l[0]], rest);
  }

  // Until main's join has returned some worker can go on.
  lemma NeverStuck(run: seq<State>, actions: seq<Action>) returns (a: Action)
    requires IsRun(run, actions) && !run[|actions|].join.mainDone
    ensures Enabled(run[|actions|], a)
  {
    RunInv(run, actions, |actions|);
    var s := run[|actions|];
    var b := B.NeverStuckIn(s.join);
    match b
    case Create => return Create;
    case JoinNext(w) => return JoinNext(w);
    case Stop(w) => return Stop(w);
    case MainJoin => return MainJoin;
    case FinishWork(w) =>
      assert ListOk(s, w);
      if s.batches[w].next < s.batches[w].end {
        return Examine(w);
      }
      if s.processed < |s.table| {
        return Fetch(w);
      }
      var sorted := SortExists(s.lists[w]);
      return Sort(w, sorted);
  }

  // Choices that workers hold and have not looked at.
  function Left(batches: seq<Batch>): int {
    if |batches| == 0 then 0
    else Left(batches[..|batches| - 1]) + batches[|batches| - 1].end - batches[|batches| - 1].next
  }

  lemma {:induction false} LeftUpdate(batches: seq<Batch>, w: nat, b: Batch)
    requires w < |batches|
    ensures Left(batches[w := b]) == Left(batches) - (batches[w].end - batches[w].next) + (b.end - b.next)
  {
    var n := |batches| - 1;
    if w < n {
      LeftUpdate(batches[..n], w, b);
      assert batches[w := b][..n] == batches[..n][w := b];
    } else {
      assert batches[w := b][..n] == batches[..n];
    }
  }

  lemma {:induction false} LeftBounds(batches: seq<Batch>)
    requires forall w :: 0 <= w < |batches| ==> batches[w].next <= batches[w].end
    ensures 0 <= Left(batches)
    ensures (forall w :: 0 <= w < |batches| ==> batches[w].next == batches[w].end) ==> Left(batches) == 0
  {
    if |batches| > 0 {
      LeftBounds(batches[..|batches| - 1]);
    }
  }

  function Measure(s: State): int {
    B.Measure(s.join) + 2 * (|s.table| - s.processed) + Left(s.batches)
  }

  lemma MeasureDrops(s: State, a: Action)
    requires Inv(s) && Enabled(s, a)
    ensures Measure(Apply(s, a)) < Measure(s)
  {
    match a
    case Create => B.MeasureDrops(s.join, B.Create);
    case Fetch(w) => LeftUpdate(s.batches, w, NextBatch(s.processed, |s.table|));
    case Examine(w) => LeftUpdate(s.batches, w, Batch(s.batches[w].next + 1, s.batches[w].end));
    case Sort(w, _) => B.MeasureDrops(s.join, B.FinishWork(w));
    case JoinNext(w) => B.MeasureDrops(s.join, B.JoinNext(w));
    case Stop(w) => B.MeasureDrops(s.join, B.Stop(w));
    case MainJoin => B.MeasureDrops(s.join, B.MainJoin);
  }

  lemma {:induction false} StepsBelowMeasure(run: seq<State>, actions: seq<Action>, n: nat)
    requires IsRun(run, actions) && n <= |actions|
    ensures n + Measure(run[n]) <= Measure(run[0])
  {
    if n > 0 {
      StepsBelowMeasure(run, actions, n - 1);
      RunInv(run, actions, n - 1);
      MeasureDrops(run[n - 1], actions[n - 1]);
    }
  }

  // Every run is finite: at most four steps for every worker, and two for every choice.
  lemma Terminates(run: seq<State>, actions: seq<Action>)
    requires IsRun(run, actions)
    ensures |actions| <= 4 * run[0].join.count + 2 * |run[0].table|
  {
    var s := run[|actions|];
    RunInv(run, actions, |actions|);
    StepsBelowMeasure(run, actions, |actions|);
    B.SameRanks(run[0].join.workers, 3);
    LeftBounds(run[0].batches);
    B.JoinsBelowCount(s.join);
    forall w | 0 <= w < s.join.count
      ensures s.batches[w].next <= s.batches[w].end
    {
      assert ListOk(s, w);
    }
    LeftBounds(s.batches);
  }

  // ---- the batches ----

  class SearchJob {
    const size: nat
    var processed: nat

    constructor (size: nat)
      ensures this.size == size && processed == 0
    {
      this.size := size;
      processed := 0;
    }

    // Hands out the next batch, under the lock. It is empty exactly when none is left.
    method GetNextBatch() returns (start: nat, end: nat)
      requires processed <= size
      modifies this
      ensures Batch(start, end) == NextBatch(old(processed), size) && processed == end <= size
      ensures start == end <==> old(processed) == size
      ensures end - start == 512 || end == size
    {
      start := processed;
      processed := processed + BATCH;
      if processed > size {
        processed := size;
      }
      end := processed;
    }
  }
}
