/** The parallel search: workers take batches of choices, sort what they accept, and merge their
    lists up the binomial join tree. */
module FuzzySearch {
  import opened FuzzyScore

  const BATCH := 512

  datatype Scored = Scored(addr: nat, score: Score)

  // ---- the order of results ----

  predicate ScoreLess(a: Score, b: Score) {
    match (a, b)
    case (Fin(x), Fin(y)) => x < y
    case (NegInf, _) => b != NegInf
    case (_, PosInf) => a != PosInf
    case _ => false
  }

  function CmpChoice(a: Scored, b: Scored): int {
    if a.score == b.score then (if a.addr < b.addr then -1 else 1)
    else if ScoreLess(a.score, b.score) then 1
    else -1
  }

  // Better scores first, equal ones by address.
  predicate NotAfter(a: Scored, b: Scored) {
    a == b || CmpChoice(a, b) < 0
  }

  lemma NotAfterIsOrder(a: Scored, b: Scored, c: Scored)
    ensures NotAfter(a, b) || NotAfter(b, a)
    ensures NotAfter(a, b) && NotAfter(b, a) ==> a == b
    ensures NotAfter(a, b) && NotAfter(b, c) ==> NotAfter(a, c)
  {
  }

  // The better score comes first, told from the scores themselves, and of equal ones the
  // smaller address.
  predicate BestFirst(x: Scored, y: Scored) {
    && (x.score.PosInf? || y.score.NegInf? || (x.score.Fin? && y.score.Fin? && x.score.v >= y.score.v))
    && (x.score == y.score ==> x.addr <= y.addr)
  }

  lemma NotAfterIsBest(x: Scored, y: Scored)
    ensures NotAfter(x, y) <==> BestFirst(x, y)
  {
  }

  ghost predicate Sorted(l: seq<Scored>) {
    forall i, j :: 0 <= i < j < |l| ==> NotAfter(l[i], l[j])
  }

  // x comes before everything in the list.
  ghost predicate Leads(x: Scored, l: seq<Scored>) {
    forall y :: y in multiset(l) ==> NotAfter(x, y)
  }

  lemma HeadLeads(l: seq<Scored>)
    requires Sorted(l) && 0 < |l|
    ensures Leads(l[0], l) && Leads(l[0], l[1..]) && Sorted(l[1..])
    ensures multiset(l) == multiset{l[0]} + multiset(l[1..])
  {
    assert l == [l[0]] + l[1..];
    forall y | y in multiset(l)
      ensures NotAfter(l[0], y)
    {
      assert y in l;
    }
  }

  // A sorted list is determined by its elements.
  lemma {:induction false} SortedUnique(a: seq<Scored>, b: seq<Scored>)
    requires Sorted(a) && Sorted(b) && multiset(a) == multiset(b)
    ensures a == b
    decreases |a|
  {
    assert |multiset(a)| == |a| && |multiset(b)| == |b|;
    if |a| > 0 {
      SameHead(a, b);
      SortedUnique(a[1..], b[1..]);
      assert a == [a[0]] + a[1..] && b == [b[0]] + b[1..];
    }
  }

  lemma SameHead(a: seq<Scored>, b: seq<Scored>)
    requires Sorted(a) && Sorted(b) && multiset(a) == multiset(b) && 0 < |a| && 0 < |b|
    ensures a[0] == b[0] && Sorted(a[1..]) && Sorted(b[1..]) && multiset(a[1..]) == multiset(b[1..])
  {
    HeadLeads(a);
    HeadLeads(b);
    assert a[0] in multiset(b) && b[0] in multiset(a);
    NotAfterIsOrder(a[0], b[0], b[0]);
    assert multiset(a[1..]) == multiset(a) - multiset{a[0]};
    assert multiset(b[1..]) == multiset(b) - multiset{b[0]};
  }

  // ---- merging ----

  function Merged(a: seq<Scored>, b: seq<Scored>): seq<Scored> {
    if |a| == 0 then b
    else if |b| == 0 then a
    else if CmpChoice(a[0], b[0]) < 0 then [a[0]] + Merged(a[1..], b)
    else [b[0]] + Merged(a, b[1..])
  }

  lemma {:induction false} MergedElements(a: seq<Scored>, b: seq<Scored>)
    ensures multiset(Merged(a, b)) == multiset(a) + multiset(b)
    decreases |a| + |b|
  {
    if |a| == 0 || |b| == 0 {
    } else if CmpChoice(a[0], b[0]) < 0 {
      MergedElements(a[1..], b);
      assert a == [a[0]] + a[1..];
    } else {
      MergedElements(a, b[1..]);
      assert b == [b[0]] + b[1..];
    }
  }

  lemma SortedCons(x: Scored, l: seq<Scored>)
    requires Sorted(l) && Leads(x, l)
    ensures Sorted([x] + l)
  {
    forall i | 0 <= i < |l|
      ensures NotAfter(x, l[i])
    {
      assert l[i] in multiset(l);
    }
  }

  lemma LeadsMerged(x: Scored, a: seq<Scored>, b: seq<Scored>)
    requires Leads(x, a) && Leads(x, b)
    ensures Leads(x, Merged(a, b))
  {
    MergedElements(a, b);
  }

  lemma LeadsFurther(x: Scored, y: Scored, l: seq<Scored>)
    requires NotAfter(x, y) && Leads(y, l)
    ensures Leads(x, l)
  {
    forall z | z in multiset(l)
      ensures NotAfter(x, z)
    {
      NotAfterIsOrder(x, y, z);
    }
  }

  lemma {:induction false} MergedSorted(a: seq<Scored>, b: seq<Scored>)
    requires Sorted(a) && Sorted(b)
    ensures Sorted(Merged(a, b))
    decreases |a| + |b|
  {
    if |a| > 0 && |b| > 0 {
      HeadLeads(a);
      HeadLeads(b);
      NotAfterIsOrder(a[0], b[0], b[0]);
      if CmpChoice(a[0], b[0]) < 0 {
        MergedSorted(a[1..], b);
        LeadsFurther(a[0], b[0], b);
        LeadsMerged(a[0], a[1..], b);
        SortedCons(a[0], Merged(a[1..], b));
      } else {
        MergedSorted(a, b[1..]);
        LeadsFurther(b[0], a[0], a);
        LeadsMerged(b[0], a, b[1..]);
        SortedCons(b[0], Merged(a, b[1..]));
      }
    }
  }

  // What is written so far, followed by the merge of what is left, is the whole merge.
  ghost predicate MergedUpTo(list1: seq<Scored>, list2: seq<Scored>, i: nat, j: nat, out: seq<Scored>) {
    && i <= |list1| && j <= |list2| && |out| == i + j
    && out + Merged(list1[i..], list2[j..]) == Merged(list1, list2)
  }

  lemma TakeFirst(list1: seq<Scored>, list2: seq<Scored>, i: nat, j: nat, out: seq<Scored>)
    requires MergedUpTo(list1, list2, i, j, out) && i < |list1|
    requires j == |list2| || CmpChoice(list1[i], list2[j]) < 0
    ensures MergedUpTo(list1, list2, i + 1, j, out + [list1[i]])
  {
    assert list1[i..][1..] == list1[i + 1..];
    var rest := Merged(list1[i + 1..], list2[j..]);
    assert list1[i..] == [list1[i]] + list1[i + 1..];
    assert Merged(list1[i..], list2[j..]) == [list1[i]] + rest;
    assert out + ([list1[i]] + rest) == out + [list1[i]] + rest;
  }

  lemma TakeSecond(list1: seq<Scored>, list2: seq<Scored>, i: nat, j: nat, out: seq<Scored>)
    requires MergedUpTo(list1, list2, i, j, out) && j < |list2|
    requires i == |list1| || CmpChoice(list1[i], list2[j]) >= 0
    ensures MergedUpTo(list1, list2, i, j + 1, out + [list2[j]])
  {
    assert list2[j..][1..] == list2[j + 1..];
    var rest := Merged(list1[i..], list2[j + 1..]);
    assert list2[j..] == [list2[j]] + list2[j + 1..];
    assert Merged(list1[i..], list2[j..]) == [list2[j]] + rest;
    assert out + ([list2[j]] + rest) == out + [list2[j]] + rest;
  }

  // Merges two result lists into a new array.
  method Merge2(list1: seq<Scored>, list2: seq<Scored>) returns (result: array<Scored>)
    ensures fresh(result) && result[..] == Merged(list1, list2)
  {
    var resultIndex, index1, index2 := 0, 0, 0;
    result := new Scored[|list1| + |list2|];
    ghost var out: seq<Scored> := [];
    while index1 < |list1| && index2 < |list2|
      invariant resultIndex == index1 + index2 && index1 <= |list1| && index2 <= |list2|
      invariant result[..resultIndex] == out
      invariant MergedUpTo(list1, list2, index1, index2, out)
    {
      if CmpChoice(list1[index1], list2[index2]) < 0 {
        TakeFirst(list1, list2, index1, index2, out);
        out := out + [list1[index1]];
        result[resultIndex] := list1[index1];
        resultIndex := resultIndex + 1;
        index1 := index1 + 1;
      } else {
        TakeSecond(list1, list2, index1, index2, out);
        out := out + [list2[index2]];
        result[resultIndex] := list2[index2];
        resultIndex := resultIndex + 1;
        index2 := index2 + 1;
      }
    }
    out := CopyFirst(list1, list2, index1, index2, result, out);
    CopySecond(list1, list2, index2, result, out);
  }

  // The rest of the first list, once the second is used up.
  method CopyFirst(list1: seq<Scored>, list2: seq<Scored>, from: nat, index2: nat, result: array<Scored>,
                   ghost before: seq<Scored>)
    returns (ghost out: seq<Scored>)
    requires from == |list1| || index2 == |list2|
    requires MergedUpTo(list1, list2, from, index2, before) && result.Length == |list1| + |list2|
    requires result[..from + index2] == before
    modifies result
    ensures MergedUpTo(list1, list2, |list1|, index2, out) && result[..|list1| + index2] == out
  {
    var index1 := from;
    out := before;
    while index1 < |list1|
      invariant index1 <= |list1| && (index1 == |list1| || index2 == |list2|)
      invariant index1 + index2 <= result.Length && result[..index1 + index2] == out
      invariant MergedUpTo(list1, list2, index1, index2, out)
    {
      TakeFirst(list1, list2, index1, index2, out);
      out := out + [list1[index1]];
      result[index1 + index2] := list1[index1];
      index1 := index1 + 1;
    }
  }

  // The rest of the second list, once the first is used up.
  method CopySecond(list1: seq<Scored>, list2: seq<Scored>, from: nat, result: array<Scored>,
                    ghost before: seq<Scored>)
    requires MergedUpTo(list1, list2, |list1|, from, before) && result.Length == |list1| + |list2|
    requires result[..|list1| + from] == before
    modifies result
    ensures result[..] == Merged(list1, list2)
  {
    var index2 := from;
    ghost var out := before;
    while index2 < |list2|
      invariant index2 <= |list2| && result[..|list1| + index2] == out
      invariant MergedUpTo(list1, list2, |list1|, index2, out)
    {
      TakeSecond(list1, list2, |list1|, index2, out);
      out := out + [list2[index2]];
      result[|list1| + index2] := list2[index2];
      index2 := index2 + 1;
    }
    assert result[..] == out;
  }
}
