/** The literal loop of the file searcher: which matches are reported, in which order. */
module SearchBuffer {
  import opened Wrappers
  import opened Bytes
  import opened LiteralSpec
  import opened SkipTables
  import BoyerMoore
  import HashSearch

  datatype Match = Match(start: nat, end: nat)

  datatype Query = Query(
    pat: seq<byte>, sensitive: bool, wordRegexp: bool, wordchar: seq<bool>, maxMatches: nat)
  {
    ghost predicate Valid() {
      |pat| > 0 && Folded(sensitive, pat) && |wordchar| == 256
    }

    predicate StartsWord(buf: seq<byte>, k: nat)
      requires Valid() && k <= |buf|
    {
      k == 0 || wordchar[buf[k - 1]] != wordchar[pat[0]]
    }

    predicate EndsWord(buf: seq<byte>, k: nat)
      requires Valid() && k + |pat| <= |buf|
    {
      k + |pat| == |buf| || wordchar[buf[k + |pat|]] != wordchar[pat[|pat| - 1]]
    }

    // An occurrence that is reported: in word mode it must not run on into its neighbours.
    predicate Hit(buf: seq<byte>, k: nat)
      requires Valid()
    {
      Occurs(sensitive, buf, pat, k) && (wordRegexp ==> StartsWord(buf, k) && EndsWord(buf, k))
    }
  }

  // ---- words ----

  // Letters, digits and the underscore.
  predicate IsWordCharacter(c: nat) {
    || 'a' as int <= c <= 'z' as int || 'A' as int <= c <= 'Z' as int
    || '0' as int <= c <= '9' as int || c == '_' as int
  }

  // What separates words: the control characters, the punctuation and everything from 123 on.
  lemma NoWordCharacter(c: byte)
    ensures !IsWordCharacter(c) <==> c < 48 || 57 < c < 65 || 90 < c < 95 || c == 96 || 122 < c
  {
  }

  function WordTable(): (table: seq<bool>)
    ensures |table| == 256 && CaseBlind(table)
  {
    seq(256, c requires 0 <= c < 256 => IsWordCharacter(c))
  }

  method InitWordcharTable() returns (table: seq<bool>)
    ensures table == WordTable()
  {
    table := [];
    var i := 0;
    while i < 256
      invariant 0 <= i <= 256 && |table| == i
      invariant forall c :: 0 <= c < i ==> table[c] == IsWordCharacter(c)
    {
      // as a signed character: from 128 on it is below all of the ranges
      var ch := if i < 128 then i else i - 256;
      var word := (97 <= ch <= 122) || (65 <= ch <= 90) || (48 <= ch <= 57) || ch == 95;
      table := table + [word];
      i := i + 1;
    }
  }

  // A letter is a word character in either case.
  ghost predicate CaseBlind(wordchar: seq<bool>) {
    |wordchar| == 256 && forall c: byte :: wordchar[ToLower(c)] == wordchar[c]
  }

  // Place k of the text lies between a word character and another one, or at an end.
  predicate Boundary(wordchar: seq<bool>, buf: seq<byte>, k: nat)
    requires |wordchar| == 256 && k <= |buf|
  {
    k == 0 || k == |buf| || wordchar[buf[k - 1]] != wordchar[buf[k]]
  }

  // An occurrence to be reported, told from the text alone.
  ghost predicate Wanted(buf: seq<byte>, q: Query, k: nat)
    requires q.Valid()
  {
    && Occurs(q.sensitive, buf, q.pat, k)
    && (q.wordRegexp ==> Boundary(q.wordchar, buf, k) && Boundary(q.wordchar, buf, k + |q.pat|))
  }

  // The comparisons with the ends of the pattern find the word boundaries of the text.
  lemma HitsAreWanted(buf: seq<byte>, q: Query, k: nat)
    requires q.Valid() && CaseBlind(q.wordchar)
    ensures q.Hit(buf, k) <==> Wanted(buf, q, k)
  {
    if Occurs(q.sensitive, buf, q.pat, k) {
      var last := |q.pat| - 1;
      assert Fold(q.sensitive, buf[k + 0]) == q.pat[0] && Fold(q.sensitive, buf[k + last]) == q.pat[last];
      assert q.wordchar[buf[k]] == q.wordchar[q.pat[0]] && q.wordchar[buf[k + last]] == q.wordchar[q.pat[last]];
    }
  }

  // ---- the list of matches ----

  // Scanning naively from off: report a hit and continue behind it, else move on by one.
  function Greedy(buf: seq<byte>, q: Query, off: nat): seq<Match>
    requires q.Valid()
    decreases |buf| - off
  {
    if off + |q.pat| > |buf| then []
    else if q.Hit(buf, off) then [Match(off, off + |q.pat|)] + Greedy(buf, q, off + |q.pat|)
    else Greedy(buf, q, off + 1)
  }

  // All matches, or the first maxMatches of them when a limit is set.
  function Limited(q: Query, ms: seq<Match>): seq<Match> {
    if 0 < q.maxMatches < |ms| then ms[..q.maxMatches] else ms
  }

  lemma {:induction false} GreedySkips(buf: seq<byte>, q: Query, off: nat, k: nat)
    requires q.Valid() && off <= k
    requires forall j :: off <= j < k ==> !q.Hit(buf, j)
    ensures Greedy(buf, q, off) == Greedy(buf, q, k)
    decreases k - off
  {
    if off < k {
      GreedySkips(buf, q, off + 1, k);
      if off + |q.pat| > |buf| {
        assert Greedy(buf, q, k) == [];
      }
    }
  }

  ghost predicate Covered(ms: seq<Match>, k: nat) {
    exists i :: 0 <= i < |ms| && ms[i].start <= k < ms[i].end
  }

  // Matches from off on are hits in order, without overlap, and every hit starts inside one.
  ghost predicate GreedyList(buf: seq<byte>, q: Query, off: nat, ms: seq<Match>)
    requires q.Valid()
  {
    && (forall i :: 0 <= i < |ms| ==> off <= ms[i].start && q.Hit(buf, ms[i].start) && ms[i].end == ms[i].start + |q.pat|)
    && (forall i, j :: 0 <= i < j < |ms| ==> ms[i].end <= ms[j].start)
    && (forall k: nat {:trigger Covered(ms, k)} :: off <= k && q.Hit(buf, k) ==> Covered(ms, k))
  }

  lemma GreedyCons(buf: seq<byte>, q: Query, off: nat, tail: seq<Match>)
    requires q.Valid() && q.Hit(buf, off) && GreedyList(buf, q, off + |q.pat|, tail)
    ensures GreedyList(buf, q, off, [Match(off, off + |q.pat|)] + tail)
  {
    var ms := [Match(off, off + |q.pat|)] + tail;
    assert forall i :: 0 < i < |ms| ==> ms[i] == tail[i - 1];
    forall k: nat | off <= k && q.Hit(buf, k)
      ensures Covered(ms, k)
    {
      if off + |q.pat| <= k {
        assert Covered(tail, k);
        var i :| 0 <= i < |tail| && tail[i].start <= k < tail[i].end;
        assert ms[i + 1] == tail[i];
      } else {
        assert ms[0].start <= k < ms[0].end;
      }
    }
  }

  lemma {:induction false} GreedyIsList(buf: seq<byte>, q: Query, off: nat)
    requires q.Valid()
    ensures GreedyList(buf, q, off, Greedy(buf, q, off))
    decreases |buf| - off
  {
    if off + |q.pat| > |buf| {
    } else if q.Hit(buf, off) {
      GreedyIsList(buf, q, off + |q.pat|);
      GreedyCons(buf, q, off, Greedy(buf, q, off + |q.pat|));
    } else {
      GreedyIsList(buf, q, off + 1);
      assert forall k: nat :: off <= k && q.Hit(buf, k) ==> off + 1 <= k;
    }
  }

  // The n-th matches of two such lists cannot differ, if the earlier ones agree: the one that
  // starts first would have to start inside an earlier match of the other.
  lemma NoEarlierMatch(buf: seq<byte>, q: Query, off: nat, ms: seq<Match>, ns: seq<Match>, n: nat)
    requires q.Valid() && GreedyList(buf, q, off, ms) && GreedyList(buf, q, off, ns)
    requires n < |ms| && n <= |ns| && forall i :: 0 <= i < n ==> ms[i] == ns[i]
    ensures n < |ns| && ns[n].start <= ms[n].start
  {
    var k := ms[n].start;
    assert Covered(ns, k);
    var i :| 0 <= i < |ns| && ns[i].start <= k < ns[i].end;
    assert n <= i;
    assert n < i ==> ns[n].end <= ns[i].start;
  }

  lemma {:induction false} ListsAgree(buf: seq<byte>, q: Query, off: nat, ms: seq<Match>, ns: seq<Match>, n: nat)
    requires q.Valid() && GreedyList(buf, q, off, ms) && GreedyList(buf, q, off, ns)
    requires n <= |ms| && n <= |ns| && forall i :: 0 <= i < n ==> ms[i] == ns[i]
    ensures ms == ns
    decreases |ms| - n
  {
    if n < |ms| {
      NoEarlierMatch(buf, q, off, ms, ns, n);
      NoEarlierMatch(buf, q, off, ns, ms, n);
      ListsAgree(buf, q, off, ms, ns, n + 1);
    } else if n < |ns| {
      NoEarlierMatch(buf, q, off, ns, ms, n);
    }
  }

  // The naive scan is the only such list.
  lemma GreedyIsUnique(buf: seq<byte>, q: Query, off: nat, ms: seq<Match>)
    requires q.Valid()
    ensures GreedyList(buf, q, off, ms) <==> ms == Greedy(buf, q, off)
  {
    GreedyIsList(buf, q, off);
    if GreedyList(buf, q, off, ms) {
      ListsAgree(buf, q, off, ms, Greedy(buf, q, off), 0);
    }
  }

  // What the list reports of the text: wanted occurrences, in order and without overlap, no
  // more than the limit; and every wanted occurrence starts inside one, up to the last one
  // reported or, below the limit, up to the end.
  ghost predicate Reported(buf: seq<byte>, q: Query, ms: seq<Match>)
    requires q.Valid()
  {
    && (forall i :: 0 <= i < |ms| ==> Wanted(buf, q, ms[i].start) && ms[i].end == ms[i].start + |q.pat|)
    && (forall i, j :: 0 <= i < j < |ms| ==> ms[i].end <= ms[j].start)
    && (q.maxMatches > 0 ==> |ms| <= q.maxMatches)
    && (forall k: nat {:trigger Covered(ms, k)} :: Wanted(buf, q, k) && Reaches(q, ms, k) ==> Covered(ms, k))
  }

  ghost predicate Reaches(q: Query, ms: seq<Match>, k: nat) {
    q.maxMatches == 0 || |ms| < q.maxMatches || k < ms[|ms| - 1].end
  }

  lemma LimitedIsReported(buf: seq<byte>, q: Query)
    requires q.Valid() && CaseBlind(q.wordchar)
    ensures Reported(buf, q, Limited(q, Greedy(buf, q, 0)))
  {
    var ms := Limited(q, Greedy(buf, q, 0));
    GreedyIsList(buf, q, 0);
    forall i | 0 <= i < |ms|
      ensures Wanted(buf, q, ms[i].start)
    {
      HitsAreWanted(buf, q, ms[i].start);
    }
    forall k: nat | Wanted(buf, q, k) && Reaches(q, ms, k)
      ensures Covered(ms, k)
    {
      HitsAreWanted(buf, q, k);
      CoveredByPrefix(buf, q, Greedy(buf, q, 0), k);
    }
  }

  lemma CoveredByPrefix(buf: seq<byte>, q: Query, all: seq<Match>, k: nat)
    requires q.Valid() && GreedyList(buf, q, 0, all) && q.Hit(buf, k) && Reaches(q, Limited(q, all), k)
    ensures Covered(Limited(q, all), k)
  {
    var ms := Limited(q, all);
    assert Covered(all, k);
    var i :| 0 <= i < |all| && all[i].start <= k < all[i].end;
    assert 0 < |ms| < |all| ==> ms[|ms| - 1] == all[|ms| - 1];
    assert i < |ms| && ms[i] == all[i];
  }

  // The tables built for a query when the options are parsed; the hash table is only read
  // for lengths 3 to 254.
  ghost predicate TablesReady(q: Query, alphaSkip: seq<nat>, findSkip: seq<nat>, table: seq<byte>) {
    && AlphaTable(q.sensitive, q.pat, alphaSkip)
    && FindSkipTable(q.pat, findSkip)
    && |table| == HashSearch.CELLS
    && (|q.pat| < 255 ==> HashSearch.HashTable(q.sensitive, q.pat, table))
  }

  // The next occurrence at or after off, found by whichever searcher the length selects.
  method NextOccurrence(buf: seq<byte>, q: Query, off: nat,
                        alphaSkip: array<nat>, findSkip: array<nat>, table: array<byte>)
    returns (r: Option<nat>)
    requires q.Valid() && off <= |buf|
    requires TablesReady(q, alphaSkip[..], findSkip[..], table[..])
    ensures match r
      case Some(k) => off <= k && Occurs(q.sensitive, buf, q.pat, k)
        && forall j :: off <= j < k ==> !Occurs(q.sensitive, buf, q.pat, j)
      case None => forall j :: off <= j ==> !Occurs(q.sensitive, buf, q.pat, j)
  {
    var rest := buf[off..];
    if |q.pat| < 3 {
      r := BoyerMoore.BoyerMooreStrnstr(rest, q.pat, alphaSkip, findSkip, !q.sensitive);
    } else if |q.pat| >= 255 {
      r := BoyerMoore.BoyerMooreStrnstr(rest, q.pat, alphaSkip, findSkip, !q.sensitive);
    } else {
      r := HashSearch.HashStrnstr(rest, q.pat, table, q.sensitive);
    }
    forall j | off <= j
      ensures Occurs(q.sensitive, rest, q.pat, j - off) <==> Occurs(q.sensitive, buf, q.pat, j)
    {
      OccursInSuffix(q.sensitive, buf, q.pat, off, j - off);
    }
    if r.Some? {
      r := Some(off + r.value);
    }
  }

  // The matches found so far are what the naive scan reports before off.
  ghost predicate FoundUpTo(buf: seq<byte>, q: Query, off: nat, matches: seq<Match>)
    requires q.Valid()
  {
    matches + Greedy(buf, q, off) == Greedy(buf, q, 0)
  }

  // Moving on over places that are no hits loses no match.
  lemma NothingBetween(buf: seq<byte>, q: Query, off: nat, k: nat, matches: seq<Match>)
    requires q.Valid() && FoundUpTo(buf, q, off, matches) && off <= k
    requires forall j :: off <= j < k ==> !q.Hit(buf, j)
    ensures FoundUpTo(buf, q, k, matches)
  {
    GreedySkips(buf, q, off, k);
  }

  // The jump over a rejected occurrence passes no hit.
  lemma RejectedJump(buf: seq<byte>, q: Query, findSkip: seq<nat>, k: nat)
    requires q.Valid() && FindSkipTable(q.pat, findSkip)
    requires Occurs(q.sensitive, buf, q.pat, k) && !q.Hit(buf, k)
    ensures var jump := findSkip[0] - |q.pat| + 1;
      0 < jump <= |q.pat| && forall j :: k <= j < k + jump ==> !q.Hit(buf, j)
  {
    FirstEntryIsPeriod(q.sensitive, q.pat, findSkip);
    forall j | k < j < k + (findSkip[0] - |q.pat| + 1)
      ensures !q.Hit(buf, j)
    {
      PeriodSkipsNothing(q.sensitive, buf, q.pat, findSkip, k, j - k);
    }
  }

  lemma AcceptedHit(buf: seq<byte>, q: Query, k: nat, matches: seq<Match>)
    requires q.Valid() && q.Hit(buf, k) && FoundUpTo(buf, q, k, matches)
    ensures FoundUpTo(buf, q, k + |q.pat|, matches + [Match(k, k + |q.pat|)])
  {
    var m, rest := Match(k, k + |q.pat|), Greedy(buf, q, k + |q.pat|);
    assert Greedy(buf, q, k) == [m] + rest;
    assert matches + ([m] + rest) == matches + [m] + rest;
  }

  lemma LimitReached(buf: seq<byte>, q: Query, off: nat, matches: seq<Match>)
    requires q.Valid() && FoundUpTo(buf, q, off, matches)
    requires q.maxMatches > 0 ==> |matches| <= q.maxMatches
    requires 0 < q.maxMatches == |matches| || Greedy(buf, q, off) == []
    ensures matches == Limited(q, Greedy(buf, q, 0))
  {
    assert (matches + Greedy(buf, q, off))[..|matches|] == matches;
  }

  method SearchBuf(buf: seq<byte>, q: Query,
                   alphaSkip: array<nat>, findSkip: array<nat>, table: array<byte>)
    returns (matches: seq<Match>)
    requires q.Valid()
    requires TablesReady(q, alphaSkip[..], findSkip[..], table[..])
    ensures matches == Limited(q, Greedy(buf, q, 0))
    ensures CaseBlind(q.wordchar) ==> Reported(buf, q, matches)
  {
    if CaseBlind(q.wordchar) {
      LimitedIsReported(buf, q);
    }
    var bufOffset := 0;
    matches := [];
    while bufOffset < |buf|
      invariant bufOffset <= |buf|
      invariant FoundUpTo(buf, q, bufOffset, matches)
      invariant q.maxMatches > 0 ==> |matches| < q.maxMatches
    {
      var next := NextOccurrence(buf, q, bufOffset, alphaSkip, findSkip, table);
      if next.None? {
        NothingBetween(buf, q, bufOffset, |buf|, matches);
        LimitReached(buf, q, bufOffset, matches);
        return;
      }
      var matchPtr := next.value;
      NothingBetween(buf, q, bufOffset, matchPtr, matches);
      if q.wordRegexp {
        if !q.StartsWord(buf, matchPtr) || !q.EndsWord(buf, matchPtr) {
          RejectedJump(buf, q, findSkip[..], matchPtr);
          bufOffset := matchPtr + (findSkip[0] - |q.pat| + 1);
          NothingBetween(buf, q, matchPtr, bufOffset, matches);
          continue;
        }
      }
      AcceptedHit(buf, q, matchPtr, matches);
      matches := matches + [Match(matchPtr, matchPtr + |q.pat|)];
      bufOffset := matchPtr + |q.pat|;
      if q.maxMatches > 0 {
        if |matches| >= q.maxMatches {
          LimitReached(buf, q, bufOffset, matches);
          return;
        }
      }
    }
    LimitReached(buf, q, bufOffset, matches);
  }

  function Lowercased(query: seq<byte>, sensitive: bool): seq<byte> {
    seq(|query|, i requires 0 <= i < |query| => Fold(sensitive, query[i]))
  }

  // Lowercases the query in insensitive mode, builds the tables, and searches. Where the hash
  // table has too few cells for the query, building it does not end.
  method LiteralSearch(buf: seq<byte>, query: seq<byte>, sensitive: bool, wordRegexp: bool, maxMatches: nat)
    returns (matches: seq<Match>)
    requires |query| > 0
    requires HashSearch.CellsNeeded(|query|, sensitive) <= HashSearch.CELLS
    ensures var q := Query(Lowercased(query, sensitive), sensitive, wordRegexp, WordTable(), maxMatches);
      q.Valid() && matches == Limited(q, Greedy(buf, q, 0)) && Reported(buf, q, matches)
  {
    var pat := query;
    if !sensitive {
      var c := 0;
      while c < |pat|
        invariant 0 <= c <= |pat| == |query|
        invariant forall i :: 0 <= i < c ==> pat[i] == ToLower(query[i])
        invariant forall i :: c <= i < |query| ==> pat[i] == query[i]
      {
        pat := pat[c := ToLower(pat[c])];
        c := c + 1;
      }
    }
    assert pat == Lowercased(query, sensitive);
    var alphaSkip := new nat[256];
    GenerateAlphaSkip(pat, alphaSkip, sensitive);
    var findSkip := GenerateFindSkip(pat, sensitive);
    var table := new byte[HashSearch.CELLS](_ => 0);
    HashSearch.GenerateHash(pat, table, sensitive);
    var wordchar := InitWordcharTable();
    var q := Query(pat, sensitive, wordRegexp, wordchar, maxMatches);
    matches := SearchBuf(buf, q, alphaSkip, findSkip, table);
  }
}
