/** The fuzzy matcher: greedy test, rolling two-row score, full-matrix score with positions. */
module FuzzyMatch {
  import opened Wrappers
  import opened Bytes
  import opened FuzzyScore

  const SLASH: byte := 47

  function Lower(s: seq<byte>): seq<byte> {
    seq(|s|, i requires 0 <= i < |s| => ToLower(s[i]))
  }

  function BonusAt(hay: seq<byte>, i: nat): int
    requires i < |hay|
  {
    Bonus(hay[i], if i == 0 then SLASH else hay[i - 1])
  }

  function ProblemOf(needle: seq<byte>, hay: seq<byte>): Problem {
    Problem(Lower(needle), Lower(hay), seq(|hay|, i requires 0 <= i < |hay| => BonusAt(hay, i)))
  }

  // What the matcher returns: sizes it does not score, equal lengths, else the best embedding.
  ghost predicate IsMatchScore(needle: seq<byte>, hay: seq<byte>, s: Score) {
    if |needle| == 0 || |hay| > MAX_LEN || |needle| > |hay| then s == NegInf
    else if |needle| == |hay| then s == PosInf
    else ProblemOf(needle, hay).IsBest(s)
  }

  method LowerInto(s: seq<byte>) returns (lower: seq<byte>)
    ensures lower == Lower(s)
  {
    lower := [];
    var i := 0;
    while i < |s|
      invariant 0 <= i <= |s| && lower == Lower(s)[..i]
    {
      lower := lower + [ToLower(s[i])];
      i := i + 1;
    }
  }

  method PrecomputeBonus(hay: seq<byte>) returns (bonus: seq<int>)
    ensures |bonus| == |hay| && forall i :: 0 <= i < |hay| ==> bonus[i] == BonusAt(hay, i)
  {
    var lastCh := SLASH;
    bonus := [];
    var i := 0;
    while i < |hay|
      invariant 0 <= i <= |hay| && |bonus| == i
      invariant lastCh == if i == 0 then SLASH else hay[i - 1]
      invariant forall k :: 0 <= k < i ==> bonus[k] == BonusAt(hay, k)
    {
      var ch := hay[i];
      bonus := bonus + [Bonus(ch, lastCh)];
      lastCh := ch;
      i := i + 1;
    }
  }

  method SetupMatchStruct(needle: seq<byte>, hay: seq<byte>) returns (p: Problem)
    requires 0 < |needle| <= |hay| <= MAX_LEN
    ensures p == ProblemOf(needle, hay) && p.Valid()
  {
    var lowerNeedle := LowerInto(needle);
    var lowerHay := LowerInto(hay);
    var bonus := PrecomputeBonus(hay);
    p := Problem(lowerNeedle, lowerHay, bonus);
  }

  // Fills one row of both matrices from the row above.
  method MatchRow(p: Problem, row: nat, currD: array<Entry>, currM: array<Entry>,
                  lastD: array<Entry>, lastM: array<Entry>)
    requires p.Valid() && row < |p.needle| && |p.hay| <= MAX_LEN
    requires currD.Length == currM.Length == lastD.Length == lastM.Length == MAX_LEN
    requires currD != currM && currD != lastD && currD != lastM && currM != lastD && currM != lastM
    modifies currD, currM
    ensures p.RowRule(row, lastD[..], lastM[..], currD[..], currM[..], |p.hay|)
  {
    var m := |p.hay|;
    var prevScore := NegInf;
    var gapScore := if row == |p.needle| - 1 then TRAILING_GAP else INNER_GAP;
    var j := 0;
    while j < m
      invariant 0 <= j <= m
      invariant prevScore == if j == 0 then NegInf else currM[j - 1]
      invariant p.RowRule(row, lastD[..], lastM[..], currD[..], currM[..], j)
    {
      ghost var d, m := currD[..], currM[..];
      if p.needle[row] == p.hay[j] {
        var score := NegInf;
        if row == 0 {
          score := Fin(j * LEADING_GAP + p.bonus[j]);
        } else if j > 0 {
          if Greater(Plus(lastM[j - 1], p.bonus[j]), Plus(lastD[j - 1], CONSECUTIVE)) {
            score := Plus(lastM[j - 1], p.bonus[j]);
          } else {
            score := Plus(lastD[j - 1], CONSECUTIVE);
          }
        }
        currD[j] := score;
        if Greater(score, Plus(prevScore, gapScore)) {
          prevScore := score;
        } else {
          prevScore := Plus(prevScore, gapScore);
        }
        currM[j] := prevScore;
      } else {
        currD[j] := NegInf;
        prevScore := Plus(prevScore, gapScore);
        currM[j] := prevScore;
      }
      assert currD[..] == d[j := currD[j]] && currM[..] == m[j := currM[j]];
      p.RowExtended(row, lastD[..], lastM[..], d, m, j, currD[j], currM[j]);
      j := j + 1;
    }
  }

  // The score, keeping two rows.
  method RollingScore(p: Problem) returns (s: Score)
    requires p.Valid() && 0 < |p.hay| <= MAX_LEN
    ensures p.IsBest(s)
  {
    var n, m := |p.needle|, |p.hay|;
    var lastD, lastM := new Entry[MAX_LEN], new Entry[MAX_LEN];
    var currD, currM := new Entry[MAX_LEN], new Entry[MAX_LEN];
    ghost var d: seq<seq<Entry>>, allM: seq<seq<Entry>> := [], [];
    var i := 0;
    while i < n
      invariant 0 <= i <= n
      invariant fresh(lastD) && fresh(lastM) && fresh(currD) && fresh(currM)
      invariant currD.Length == currM.Length == lastD.Length == lastM.Length == MAX_LEN
      invariant currD != currM && currD != lastD && currD != lastM && currM != lastD && currM != lastM
      invariant lastD != lastM
      invariant p.Matrices(d, allM, i)
      invariant i > 0 ==> lastD[..m] == d[i - 1] && lastM[..m] == allM[i - 1]
    {
      MatchRow(p, i, currD, currM, lastD, lastM);
      p.RowTrimmed(i, lastD[..], lastM[..], currD[..], currM[..]);
      p.MatricesExtended(d, allM, i, currD[..m], currM[..m]);
      d, allM := d + [currD[..m]], allM + [currM[..m]];
      currD, lastD := lastD, currD;
      currM, lastM := lastM, currM;
      i := i + 1;
    }
    p.LastEntryIsBest(d, allM);
    return lastM[m - 1];
  }

  method MatchScore(needle: seq<byte>, hay: seq<byte>) returns (s: Score)
    ensures IsMatchScore(needle, hay, s)
  {
    if |needle| == 0 {
      return NegInf;
    }
    var n, m := |needle|, |hay|;
    if m > MAX_LEN {
      return NegInf;
    } else if n > m {
      return NegInf;
    } else if n == m {
      return PosInf;
    }
    var p := SetupMatchStruct(needle, hay);
    s := RollingScore(p);
  }

  // Both matrices, row by row; a row is not written again once the next one is begun.
  method FullMatrices(p: Problem) returns (d: seq<seq<Entry>>, m: seq<seq<Entry>>)
    requires p.Valid() && 0 < |p.hay| <= MAX_LEN
    ensures p.Matrices(d, m, |p.needle|)
  {
    d, m := [], [];
    var lastD, lastM := new Entry[MAX_LEN], new Entry[MAX_LEN];
    var i := 0;
    while i < |p.needle|
      invariant 0 <= i <= |p.needle|
      invariant lastD.Length == lastM.Length == MAX_LEN
      invariant p.Matrices(d, m, i)
      invariant i > 0 ==> lastD[..|p.hay|] == d[i - 1] && lastM[..|p.hay|] == m[i - 1]
    {
      var currD, currM := new Entry[MAX_LEN], new Entry[MAX_LEN];
      MatchRow(p, i, currD, currM, lastD, lastM);
      p.RowTrimmed(i, lastD[..], lastM[..], currD[..], currM[..]);
      p.MatricesExtended(d, m, i, currD[..|p.hay|], currM[..|p.hay|]);
      d, m := d + [currD[..|p.hay|]], m + [currM[..|p.hay|]];
      lastD, lastM := currD, currM;
      i := i + 1;
    }
  }

  // All the backtrack needs to know of the matrices.
  ghost predicate Traceable(p: Problem, d: seq<seq<Entry>>, m: seq<seq<Entry>>) {
    && |d| == |m| == |p.needle|
    && (forall i :: 0 <= i < |p.needle| ==> |d[i]| == |m[i]| == |p.hay|)
    && (forall i, j {:trigger Trace(p, d, m, i, j)} ::
          0 <= i < |p.needle| && 0 <= j < |p.hay| ==> Trace(p, d, m, i, j))
  }

  ghost predicate Trace(p: Problem, d: seq<seq<Entry>>, m: seq<seq<Entry>>, i: nat, j: nat)
    requires i < |p.needle| && i < |d| && i < |m| && j < |p.hay| && j < |d[i]| == |m[i]|
    requires i > 0 && j > 0 ==> j - 1 < |m[i - 1]|
  {
    && (d[i][j].Fin? ==>
          p.needle[i] == p.hay[j] && m[i][j].Fin? && (i > 0 ==> j > 0 && m[i - 1][j - 1].Fin?))
    && (m[i][j].Fin? ==> Reached(d[i], m[i], j))
  }

  // A match at or before j, at which both entries agree.
  ghost predicate Reached(d: seq<Entry>, m: seq<Entry>, j: nat)
    requires |d| == |m| && j < |d|
  {
    exists k :: 0 <= k <= j && d[k].Fin? && d[k] == m[k]
  }

  lemma MatricesTraceable(p: Problem, d: seq<seq<Entry>>, m: seq<seq<Entry>>)
    requires p.Valid() && p.Matrices(d, m, |p.needle|)
    ensures Traceable(p, d, m)
  {
    forall i | 0 <= i < |p.needle|
      ensures |d[i]| == |m[i]| == |p.hay| && p.Running(i, d[i], m[i])
    {
      assert p.RowAt(d, m, i);
      p.RowRuns(d, m, i);
    }
    forall i, j | 0 <= i < |p.needle| && 0 <= j < |p.hay|
      ensures Trace(p, d, m, i, j)
    {
      CellTraceable(p, d, m, i, j);
    }
  }

  lemma CellTraceable(p: Problem, d: seq<seq<Entry>>, m: seq<seq<Entry>>, i: nat, j: nat)
    requires p.Valid() && p.Matrices(d, m, |p.needle|) && i < |p.needle| && j < |p.hay|
    requires |d[i]| == |m[i]| == |p.hay| && p.Running(i, d[i], m[i])
    requires i > 0 ==> |m[i - 1]| == |p.hay|
    ensures Trace(p, d, m, i, j)
  {
    assert m[i][j] == Max(d[i][j], if j > 0 then Plus(m[i][j - 1], p.Gap(i)) else NegInf);
    if d[i][j].Fin? {
      if i > 0 {
        var a := p.CameFrom(d, m, i, j);
      } else {
        p.FirstRow(d, m, j);
      }
    }
    if m[i][j].Fin? {
      var k := p.RowReached(i, d[i], m[i], j);
      assert d[i][k].Fin? && d[i][k] == m[i][k];
    }
  }

  // The places filled from index i on are matches in order.
  ghost predicate FilledFrom(p: Problem, positions: seq<nat>, i: nat)
    requires |p.needle| <= |positions|
  {
    && (forall k :: i <= k < |p.needle| ==> positions[k] < |p.hay| && p.needle[k] == p.hay[positions[k]])
    && (forall k :: i < k < |p.needle| ==> positions[k - 1] < positions[k])
  }

  // j is the last place up to start at which both entries of a row agree on a match.
  ghost predicate LastAgreement(d: seq<Entry>, m: seq<Entry>, start: int, j: int)
    requires |d| == |m|
  {
    && 0 <= j <= start < |d| && d[j].Fin? && d[j] == m[j]
    && forall k :: j < k <= start ==> !(d[k].Fin? && d[k] == m[k])
  }

  // The match of needle character k, at its place, was scored as following a match right
  // before it.
  predicate Consecutive(d: seq<seq<Entry>>, m: seq<seq<Entry>>, k: nat, place: nat)
    requires 0 < k < |d| && k < |m| && place < |m[k]| && (place > 0 ==> place - 1 < |d[k - 1]|)
  {
    place > 0 && m[k][place] == Plus(d[k - 1][place - 1], CONSECUTIVE)
  }

  // The place of character k follows from that of the next one: right before it when that was
  // scored as consecutive, else the last agreement before it.
  ghost predicate TracedAt(p: Problem, d: seq<seq<Entry>>, m: seq<seq<Entry>>, positions: seq<nat>, k: nat)
    requires |d| == |m| == |p.needle| && k < |p.needle| <= |positions|
    requires forall i :: 0 <= i < |p.needle| ==> |d[i]| == |m[i]| == |p.hay|
  {
    if k == |p.needle| - 1 then LastAgreement(d[k], m[k], |p.hay| - 1, positions[k])
    else
      var next := positions[k + 1];
      && next < |p.hay|
      && if Consecutive(d, m, k + 1, next) then positions[k] == next - 1
         else LastAgreement(d[k], m[k], next - 1, positions[k])
  }

  ghost predicate TracedFrom(p: Problem, d: seq<seq<Entry>>, m: seq<seq<Entry>>, positions: seq<nat>, i: nat)
    requires |d| == |m| == |p.needle| <= |positions|
    requires forall i :: 0 <= i < |p.needle| ==> |d[i]| == |m[i]| == |p.hay|
  {
    forall k {:trigger TracedAt(p, d, m, positions, k)} :: i <= k < |p.needle| ==> TracedAt(p, d, m, positions, k)
  }

  lemma TracedNext(p: Problem, d: seq<seq<Entry>>, m: seq<seq<Entry>>, before: seq<nat>, i: nat, j: nat)
    requires |d| == |m| == |p.needle| <= |before| && i < |p.needle|
    requires forall i :: 0 <= i < |p.needle| ==> |d[i]| == |m[i]| == |p.hay|
    requires TracedFrom(p, d, m, before, i + 1) && TracedAt(p, d, m, before[i := j], i)
    ensures TracedFrom(p, d, m, before[i := j], i)
  {
    var after := before[i := j];
    forall k | i < k < |p.needle|
      ensures TracedAt(p, d, m, after, k)
    {
      assert TracedAt(p, d, m, before, k);
    }
  }

  // Finds a place at or before start in one row: start itself when a match there is required,
  // else the last place at which both matrices agree.
  method BacktrackRow(d: seq<Entry>, m: seq<Entry>, start: int, matchRequired: bool) returns (j: int)
    requires |d| == |m| && -1 <= start < |d|
    ensures -1 <= j <= start
    ensures j >= 0 ==> d[j] != NegInf
    ensures matchRequired && start >= 0 && d[start].Fin? ==> j == start
    ensures !matchRequired && j >= 0 ==> LastAgreement(d, m, start, j)
    ensures start >= 0 && (if matchRequired then d[start].Fin? else Reached(d, m, start)) ==> j >= 0
  {
    j := start;
    while j >= 0
      invariant -1 <= j <= start
      invariant forall k :: j < k <= start ==> d[k] == NegInf || (!matchRequired && d[k] != m[k])
    {
      if d[j] != NegInf {
        if matchRequired || d[j] == m[j] {
          return;
        }
      }
      j := j - 1;
    }
  }

  // Walks back from the last entry, filling the positions from the last one down.
  method Backtrack(p: Problem, d: seq<seq<Entry>>, m: seq<seq<Entry>>, positions: array<nat>)
    requires Traceable(p, d, m) && 0 < |p.needle| <= positions.Length && 0 < |p.hay|
    modifies positions
    ensures m[|p.needle| - 1][|p.hay| - 1].Fin? ==>
      p.Embedding(positions[..|p.needle|]) && TracedFrom(p, d, m, positions[..], 0)
  {
    ghost var finite := m[|p.needle| - 1][|p.hay| - 1].Fin?;
    var matchRequired := false;
    var i := |p.needle| - 1;
    var j := |p.hay| - 1;
    while i >= 0
      invariant -1 <= i < |p.needle| && -1 <= j < |p.hay|
      invariant finite ==> FilledFrom(p, positions[..], i + 1)
      invariant finite ==> TracedFrom(p, d, m, positions[..], i + 1)
      invariant finite ==> j + 1 == if i + 1 < |p.needle| then positions[i + 1] else |p.hay|
      invariant finite ==> (matchRequired <==> 0 <= i < |p.needle| - 1 && j >= 0 && Consecutive(d, m, i + 1, j + 1))
      invariant finite && i >= 0 ==> j >= 0 && m[i][j].Fin? && (matchRequired ==> d[i][j].Fin?)
    {
      assert j >= 0 ==> Trace(p, d, m, i, j);
      ghost var before := positions[..];
      j := BacktrackRow(d[i], m[i], j, matchRequired);
      if j >= 0 {
        assert Trace(p, d, m, i, j);
        matchRequired := i > 0 && j > 0 && m[i][j] == Plus(d[i - 1][j - 1], CONSECUTIVE);
        positions[i] := j;
        if finite {
          TracedNext(p, d, m, before, i, j);
        }
        j := j - 1;
      }
      i := i - 1;
    }
  }

  ghost predicate TracedBack(p: Problem, positions: seq<nat>)
    requires p.Valid() && |p.needle| <= |positions|
  {
    exists d, m :: p.Matrices(d, m, |p.needle|) && Traceable(p, d, m) && TracedFrom(p, d, m, positions, 0)
  }

  method PositionsOf(p: Problem, positions: array?<nat>) returns (s: Score)
    requires p.Valid() && 0 < |p.hay| <= MAX_LEN
    requires positions != null ==> |p.needle| <= positions.Length
    modifies positions
    ensures p.IsBest(s)
    ensures positions != null && s.Fin? ==> p.Embedding(positions[..|p.needle|]) && TracedBack(p, positions[..])
  {
    var d, m := FullMatrices(p);
    p.LastEntryIsBest(d, m);
    s := m[|p.needle| - 1][|p.hay| - 1];
    if positions != null {
      MatricesTraceable(p, d, m);
      Backtrack(p, d, m, positions);
    }
  }

  // The score, with the places that the characters of the needle are matched at.
  method MatchPositions(needle: seq<byte>, hay: seq<byte>, positions: array?<nat>) returns (s: Score)
    requires positions != null ==> |needle| <= positions.Length
    modifies positions
    ensures IsMatchScore(needle, hay, s)
    ensures positions != null && s.PosInf? ==> forall i :: 0 <= i < |needle| ==> positions[i] == i
    ensures positions != null && s.Fin? ==>
      var p := ProblemOf(needle, hay);
      p.Valid() && p.Embedding(positions[..|needle|]) && TracedBack(p, positions[..])
  {
    if |needle| == 0 {
      return NegInf;
    }
    var n, m := |needle|, |hay|;
    if m > MAX_LEN {
      return NegInf;
    } else if n > m {
      return NegInf;
    } else if n == m {
      if positions != null {
        var i := 0;
        while i < n
          invariant 0 <= i <= n
          invariant forall k :: 0 <= k < i ==> positions[k] == k
        {
          positions[i] := i;
          i := i + 1;
        }
      }
      return PosInf;
    }
    var p := SetupMatchStruct(needle, hay);
    s := PositionsOf(p, positions);
  }

  // The haystack character h is accepted for the needle character c.
  predicate Accepts(c: byte, h: byte) {
    h == c || h == ToUpper(c)
  }

  method Strcasechr(s: seq<byte>, from: nat, c: byte) returns (r: Option<nat>)
    requires from <= |s|
    ensures match r
      case Some(k) => from <= k < |s| && Accepts(c, s[k]) && forall j :: from <= j < k ==> !Accepts(c, s[j])
      case None => forall j :: from <= j < |s| ==> !Accepts(c, s[j])
  {
    var k := from;
    while k < |s|
      invariant from <= k <= |s|
      invariant forall j :: from <= j < k ==> !Accepts(c, s[j])
    {
      if Accepts(c, s[k]) {
        return Some(k);
      }
      k := k + 1;
    }
    return None;
  }

  ghost predicate AcceptedAt(needle: seq<byte>, hay: seq<byte>, p: seq<nat>) {
    && |p| == |needle|
    && (forall i :: 0 <= i < |p| ==> p[i] < |hay| && Accepts(needle[i], hay[p[i]]))
    && (forall i :: 0 < i < |p| ==> p[i - 1] < p[i])
  }

  // Taking the first accepted character each time finds places whenever there are any.
  method HasMatch(needle: seq<byte>, hay: seq<byte>) returns (r: bool)
    ensures r <==> exists p :: AcceptedAt(needle, hay, p)
  {
    ghost var places: seq<nat> := [];
    var i, at := 0, 0;
    while i < |needle|
      invariant 0 <= i <= |needle| && 0 <= at <= |hay|
      invariant AcceptedAt(needle[..i], hay, places)
      invariant at == if i == 0 then 0 else places[i - 1] + 1
      invariant forall p :: AcceptedAt(needle, hay, p) && 0 < i ==> at <= p[i - 1] + 1
    {
      var found := Strcasechr(hay, at, needle[i]);
      if found.None? {
        assert forall p :: AcceptedAt(needle, hay, p) ==> p[i] < at;
        return false;
      }
      places := places + [found.value];
      at := found.value + 1;
      i := i + 1;
    }
    assert needle[..i] == needle;
    return true;
  }

  // Places accepted by the greedy test are places of an embedding, so the score is finite.
  lemma AcceptedIsEmbedding(needle: seq<byte>, hay: seq<byte>, p: seq<nat>)
    requires AcceptedAt(needle, hay, p)
    ensures ProblemOf(needle, hay).Embedding(p)
  {
    forall i | 0 <= i < |p|
      ensures p[i] < |hay| && Lower(needle)[i] == Lower(hay)[p[i]]
    {
      assert Accepts(needle[i], hay[p[i]]);
    }
  }

  // When the needle holds no capital the greedy test accepts exactly what can be embedded.
  lemma EmbeddingIsAccepted(needle: seq<byte>, hay: seq<byte>, p: seq<nat>)
    requires forall i :: 0 <= i < |needle| ==> ToLower(needle[i]) == needle[i]
    requires ProblemOf(needle, hay).Embedding(p)
    ensures AcceptedAt(needle, hay, p)
  {
    forall i | 0 <= i < |p|
      ensures p[i] < |hay| && Accepts(needle[i], hay[p[i]])
    {
      assert Lower(needle)[i] == Lower(hay)[p[i]];
      FoldPreimage(hay[p[i]], needle[i]);
    }
  }

  // What the greedy test accepts can be embedded, with every character but a lowercase letter
  // standing for itself alone; and this is all it asks.
  lemma AcceptedExactly(needle: seq<byte>, hay: seq<byte>, p: seq<nat>)
    ensures AcceptedAt(needle, hay, p) <==>
      && ProblemOf(needle, hay).Embedding(p)
      && forall i :: 0 <= i < |p| && p[i] < |hay| && !('a' as int <= needle[i] <= 'z' as int) ==> hay[p[i]] == needle[i]
  {
    forall i, k | 0 <= i < |needle| && 0 <= k < |hay|
      ensures Accepts(needle[i], hay[k]) <==>
        Lower(needle)[i] == Lower(hay)[k] && ('a' as int <= needle[i] <= 'z' as int || hay[k] == needle[i])
    {
      AcceptsExactly(needle[i], hay[k]);
    }
  }

  lemma AcceptsExactly(c: byte, h: byte)
    ensures Accepts(c, h) <==> ToLower(c) == ToLower(h) && ('a' as int <= c <= 'z' as int || h == c)
  {
  }

  // Both scorers compute the one score the rule allows.
  lemma MatchScoreUnique(needle: seq<byte>, hay: seq<byte>, s: Score, t: Score)
    requires IsMatchScore(needle, hay, s) && IsMatchScore(needle, hay, t)
    ensures s == t
  {
    if 0 < |needle| < |hay| <= MAX_LEN {
      ProblemOf(needle, hay).BestUnique(s, t);
    }
  }

  // Increasing places start at 0 or later.
  lemma {:induction false} PlacesAtLeast(p: seq<nat>, k: nat)
    requires k < |p| && forall i :: 0 < i < |p| ==> p[i - 1] < p[i]
    ensures k <= p[k]
  {
    if k > 0 {
      PlacesAtLeast(p, k - 1);
    }
  }

  lemma EmbeddingFits(needle: seq<byte>, hay: seq<byte>, p: seq<nat>)
    requires ProblemOf(needle, hay).Embedding(p)
    ensures |needle| <= |hay|
  {
    if |p| > 0 {
      PlacesAtLeast(p, |p| - 1);
    }
  }

  // What the greedy test accepts scores above minus infinity exactly when the needle is not
  // empty and the haystack not too long to be scored.
  lemma AcceptedScores(needle: seq<byte>, hay: seq<byte>, p: seq<nat>, s: Score)
    requires AcceptedAt(needle, hay, p) && IsMatchScore(needle, hay, s)
    ensures s != NegInf <==> 0 < |needle| && |hay| <= MAX_LEN
  {
    AcceptedIsEmbedding(needle, hay, p);
    EmbeddingFits(needle, hay, p);
  }

  lemma {:induction false} FullEmbeddingFromEnd(n: nat, p: seq<nat>, k: nat)
    requires |p| == n && k < n
    requires forall i :: 0 <= i < n ==> p[i] < n
    requires forall i :: 0 < i < n ==> p[i - 1] < p[i]
    ensures p[k] <= k
    decreases n - k
  {
    if k + 1 < n {
      FullEmbeddingFromEnd(n, p, k + 1);
    }
  }

  lemma FullEmbeddingAgrees(needle: seq<byte>, hay: seq<byte>, p: seq<nat>)
    requires |needle| == |hay| && ProblemOf(needle, hay).Embedding(p)
    ensures Lower(needle) == Lower(hay)
  {
    forall k | 0 <= k < |p|
      ensures Lower(needle)[k] == Lower(hay)[k]
    {
      PlacesAtLeast(p, k);
      FullEmbeddingFromEnd(|p|, p, k);
    }
  }

  // The greedy test on lowercased strings decides whether there is an embedding.
  lemma LoweredAccepts(needle: seq<byte>, hay: seq<byte>, p: seq<nat>)
    ensures AcceptedAt(Lower(needle), Lower(hay), p) <==> ProblemOf(needle, hay).Embedding(p)
  {
    forall i, k | 0 <= i < |needle| && 0 <= k < |hay|
      ensures Accepts(Lower(needle)[i], Lower(hay)[k]) <==> Lower(needle)[i] == Lower(hay)[k]
    {
    }
  }

  // When minus infinity says that there is no embedding, for all strings: the needle is not
  // empty; equally long strings, which are not compared, agree up to case; and in a haystack
  // that is too long to be scored the greedy test on lowercased strings finds nothing.
  predicate Separates(needle: seq<byte>, hay: seq<byte>, found: bool) {
    && 0 < |needle|
    && (|needle| == |hay| <= MAX_LEN ==> Lower(needle) == Lower(hay))
    && (|hay| > MAX_LEN ==> !found)
  }

  lemma MinusInfinityExactly(needle: seq<byte>, hay: seq<byte>, s: Score, found: bool)
    requires IsMatchScore(needle, hay, s)
    requires found <==> exists p :: AcceptedAt(Lower(needle), Lower(hay), p)
    ensures (s == NegInf <==> forall p :: !ProblemOf(needle, hay).Embedding(p)) <==> Separates(needle, hay, found)
  {
    var pr := ProblemOf(needle, hay);
    forall p
      ensures AcceptedAt(Lower(needle), Lower(hay), p) <==> pr.Embedding(p)
      ensures pr.Embedding(p) ==> |needle| <= |hay|
    {
      LoweredAccepts(needle, hay, p);
      if pr.Embedding(p) {
        EmbeddingFits(needle, hay, p);
      }
    }
    if |needle| == 0 {
      assert pr.Embedding([]);
    } else if |needle| < |hay| <= MAX_LEN {
      ScoreTellsEmbedding(needle, hay, s);
    } else if |needle| == |hay| <= MAX_LEN {
      EqualLengthsEmbed(needle, hay);
    }
  }

  lemma ScoreTellsEmbedding(needle: seq<byte>, hay: seq<byte>, s: Score)
    requires 0 < |needle| < |hay| <= MAX_LEN && IsMatchScore(needle, hay, s)
    ensures s == NegInf <==> forall p :: !ProblemOf(needle, hay).Embedding(p)
  {
    if s.Fin? {
      var p :| ProblemOf(needle, hay).Embedding(p) && ProblemOf(needle, hay).Total(p) == s.v;
    }
  }

  lemma EqualLengthsEmbed(needle: seq<byte>, hay: seq<byte>)
    requires |needle| == |hay|
    ensures (exists p :: ProblemOf(needle, hay).Embedding(p)) <==> Lower(needle) == Lower(hay)
  {
    if Lower(needle) == Lower(hay) {
      var id := seq(|hay|, i requires 0 <= i < |hay| => i);
      assert ProblemOf(needle, hay).Embedding(id);
    } else if p :| ProblemOf(needle, hay).Embedding(p) {
      FullEmbeddingAgrees(needle, hay, p);
    }
  }

  // "b" is scored as a full match for "a".
  lemma EqualLengthsNotCompared()
    ensures IsMatchScore([97], [98], PosInf) && forall p :: !ProblemOf([97], [98]).Embedding(p)
  {
    EqualLengthsEmbed([97], [98]);
    assert Lower([97])[0] != Lower([98])[0];
  }

  // An "a" is found nowhere among 1025 of them, though the greedy test accepts the first.
  lemma LongHaystackNotScored(hay: seq<byte>)
    requires |hay| == 1025 && forall i :: 0 <= i < |hay| ==> hay[i] == 97
    ensures IsMatchScore([97], hay, NegInf) && AcceptedAt([97], hay, [0]) && ProblemOf([97], hay).Embedding([0])
  {
    AcceptedIsEmbedding([97], hay, [0]);
  }

  // The empty needle is accepted everywhere, and scores minus infinity.
  lemma EmptyNeedleNotScored(hay: seq<byte>)
    ensures IsMatchScore([], hay, NegInf) && AcceptedAt([], hay, []) && ProblemOf([], hay).Embedding([])
  {
  }

  // Plus infinity is the score of equally long strings that are not empty nor too long.
  lemma PlusInfinityExactly(needle: seq<byte>, hay: seq<byte>, s: Score)
    requires IsMatchScore(needle, hay, s)
    ensures s == PosInf <==> 0 < |needle| == |hay| <= 1024
  {
  }

  // ---- some scores ----

  lemma OnlyEmbedding(p: Problem, places: seq<nat>)
    requires p.Valid() && p.Embedding(places) && forall q :: p.Embedding(q) ==> q == places
    ensures p.IsBest(Fin(p.Total(places)))
  {
  }

  // "a" in "ab" scores 0.9 for the start and 0.005 less for the rest; in "ba" 0.005 less than
  // nothing.
  lemma FirstAndLast()
    ensures IsMatchScore([97], [97, 98], Fin(179)) && IsMatchScore([97], [98, 97], Fin(-1))
  {
    var p, q := ProblemOf([97], [97, 98]), ProblemOf([97], [98, 97]);
    forall places | p.Embedding(places)
      ensures places == [0]
    {
      assert p.hay[1] == 98;
    }
    forall places | q.Embedding(places)
      ensures places == [1]
    {
      assert q.hay[0] == 98;
    }
    assert p.Embedding([0]) && q.Embedding([1]);
    OnlyEmbedding(p, [0]);
    OnlyEmbedding(q, [1]);
  }

  // "ab" in "abc" scores 1.0 for following at once.
  lemma FollowsAtOnce()
    ensures IsMatchScore([97, 98], [97, 98, 99], Fin(379))
  {
    var p := ProblemOf([97, 98], [97, 98, 99]);
    forall places | p.Embedding(places)
      ensures places == [0, 1]
    {
      assert p.needle[0] == 97 && p.needle[1] == 98 && p.hay[0] == 97 && p.hay[1] == 98 && p.hay[2] == 99;
      assert places[0] == 0 && places[1] == 1;
    }
    assert p.Embedding([0, 1]) && [0, 1][..1] == [0];
    OnlyEmbedding(p, [0, 1]);
  }

  // "ac" in "abc" scores 0.01 less for the gap.
  lemma FollowsAfterGap()
    ensures IsMatchScore([97, 99], [97, 98, 99], Fin(178))
  {
    var p := ProblemOf([97, 99], [97, 98, 99]);
    forall places | p.Embedding(places)
      ensures places == [0, 2]
    {
      assert p.needle[0] == 97 && p.needle[1] == 99 && p.hay[0] == 97 && p.hay[1] == 98 && p.hay[2] == 99;
      assert places[0] == 0 && places[1] == 2;
    }
    assert p.Embedding([0, 2]) && [0, 2][..1] == [0];
    OnlyEmbedding(p, [0, 2]);
  }
}
