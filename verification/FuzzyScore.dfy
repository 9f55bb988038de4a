/** The fuzzy matcher's scoring rule, and the recurrences its two matrices follow. Scores are
    exact: 1 stands for 0.005, so the gap penalties are 1 and 2 and the consecutive reward 200. */
module FuzzyScore {
  import opened Bytes

  datatype Score = NegInf | Fin(v: int) | PosInf

  // The two matrices hold no plus infinity.
  type Entry = s: Score | s != PosInf witness NegInf

  function Plus(s: Entry, k: int): Entry {
    if s.Fin? then Fin(s.v + k) else s
  }

  predicate Greater(a: Entry, b: Entry) {
    a.Fin? && (b.Fin? ==> a.v > b.v)
  }

  function Max(a: Entry, b: Entry): Entry {
    if Greater(a, b) then a else b
  }

  const MAX_LEN := 1024
  const LEADING_GAP := -1
  const INNER_GAP := -2
  const TRAILING_GAP := -1
  const CONSECUTIVE := 200

  // The bonus of a character by the one before it: separators for letters and digits, and
  // lowercase letters for capitals.
  function Bonus(ch: byte, last: byte): (b: int)
    ensures 0 <= b < CONSECUTIVE
  {
    var upper := 65 <= ch <= 90;
    if !(upper || 97 <= ch <= 122 || 48 <= ch <= 57) then 0
    else if last == 47 then 180
    else if last == 45 || last == 95 || last == 32 then 160
    else if last == 46 then 120
    else if upper && 97 <= last <= 122 then 140
    else 0
  }

  predicate IsCapital(c: byte) {
    'A' as int <= c <= 'Z' as int
  }

  predicate IsLetterOrDigit(c: byte) {
    IsCapital(c) || 'a' as int <= c <= 'z' as int || '0' as int <= c <= '9' as int
  }

  // The bonuses 0.9 behind a slash, 0.8 behind a dash, an underscore or a space, 0.6 behind a
  // dot, and 0.7 for a capital behind a lowercase letter; none else.
  lemma BonusValues(ch: byte, last: byte)
    ensures Bonus(ch, last) == 180 <==> IsLetterOrDigit(ch) && last == '/' as int
    ensures Bonus(ch, last) == 160 <==>
      IsLetterOrDigit(ch) && (last == '-' as int || last == '_' as int || last == ' ' as int)
    ensures Bonus(ch, last) == 120 <==> IsLetterOrDigit(ch) && last == '.' as int
    ensures Bonus(ch, last) == 140 <==> IsCapital(ch) && 'a' as int <= last <= 'z' as int
    ensures Bonus(ch, last) in {0, 120, 140, 160, 180}
  {
  }

  // What the matcher works on: lowercased needle and haystack, and a bonus for each place.
  datatype Problem = Problem(needle: seq<byte>, hay: seq<byte>, bonus: seq<int>) {
    ghost predicate Valid() {
      && 0 < |needle| && |bonus| == |hay|
      && forall j :: 0 <= j < |hay| ==> bonus[j] < CONSECUTIVE
    }

    // The needle's first |p| characters are found, in order, at the places p.
    ghost predicate Places(p: seq<nat>) {
      && |p| <= |needle|
      && (forall i :: 0 <= i < |p| ==> p[i] < |hay| && needle[i] == hay[p[i]])
      && (forall i :: 0 < i < |p| ==> p[i - 1] < p[i])
    }

    ghost predicate Embedding(p: seq<nat>) {
      |p| == |needle| && Places(p)
    }

    // The score of matching one more character at b, after one at a.
    function Step(a: nat, b: nat): int
      requires Valid() && a < b < |hay|
    {
      if b == a + 1 then CONSECUTIVE else bonus[b] + INNER_GAP * (b - a - 1)
    }

    function PlacesScore(p: seq<nat>): int
      requires Valid() && Places(p) && 0 < |p|
    {
      if |p| == 1 then LEADING_GAP * p[0] + bonus[p[0]]
      else PlacesScore(p[..|p| - 1]) + Step(p[|p| - 2], p[|p| - 1])
    }

    // Leading gap, bonuses, consecutive rewards and inner gaps, trailing gap.
    function Total(p: seq<nat>): int
      requires Valid() && Embedding(p)
    {
      PlacesScore(p) + TRAILING_GAP * (|hay| - 1 - p[|p| - 1])
    }

    // The score of the best embedding, minus infinity when there is none.
    ghost predicate IsBest(s: Score)
      requires Valid()
    {
      match s
      case Fin(v) =>
        (exists p :: Embedding(p) && Total(p) == v) && forall p :: Embedding(p) ==> Total(p) <= v
      case NegInf => forall p :: !Embedding(p)
      case PosInf => false
    }

    lemma BestUnique(s: Score, t: Score)
      requires Valid() && IsBest(s) && IsBest(t)
      ensures s == t
    {
      if s.Fin? && t.Fin? {
        var p :| Embedding(p) && Total(p) == s.v;
        var q :| Embedding(q) && Total(q) == t.v;
        assert Total(p) <= t.v && Total(q) <= s.v;
      }
    }

    function Gap(i: nat): int {
      if i == |needle| - 1 then TRAILING_GAP else INNER_GAP
    }

    // One cell of both matrices: d is the best score of needle[..i + 1] with its last character
    // at j, from the cells diagonally above; m the best within hay[..j + 1], from the left.
    ghost predicate CellRule(i: nat, j: nat, d: Entry, m: Entry, diagonalD: Entry, diagonalM: Entry, left: Entry)
      requires Valid() && i < |needle| && j < |hay|
    {
      && d == (
        if needle[i] != hay[j] || (i > 0 && j == 0) then NegInf
        else if i == 0 then Fin(LEADING_GAP * j + bonus[j])
        else Max(Plus(diagonalM, bonus[j]), Plus(diagonalD, CONSECUTIVE)))
      && m == Max(d, Plus(left, Gap(i)))
    }

    ghost predicate CellAt(i: nat, j: nat, lastD: seq<Entry>, lastM: seq<Entry>, d: seq<Entry>, m: seq<Entry>)
      requires Valid() && i < |needle| && j < |hay| && j < |d| && j < |m|
      requires i > 0 ==> j < |lastD| && j < |lastM|
    {
      CellRule(i, j, d[j], m[j],
               if i > 0 && j > 0 then lastD[j - 1] else NegInf,
               if i > 0 && j > 0 then lastM[j - 1] else NegInf,
               if j > 0 then m[j - 1] else NegInf)
    }

    // The first upto cells of row i, given the row above.
    ghost predicate RowRule(i: nat, lastD: seq<Entry>, lastM: seq<Entry>, d: seq<Entry>, m: seq<Entry>, upto: nat)
      requires Valid() && i < |needle|
    {
      && upto <= |hay| && upto <= |d| && upto <= |m| && (i > 0 ==> upto <= |lastD| && upto <= |lastM|)
      && forall j {:trigger CellAt(i, j, lastD, lastM, d, m)} ::
           0 <= j < upto ==> CellAt(i, j, lastD, lastM, d, m)
    }

    // Writing the next cell leaves the earlier ones as they are.
    lemma RowExtended(i: nat, lastD: seq<Entry>, lastM: seq<Entry>, d: seq<Entry>, m: seq<Entry>, j: nat, x: Entry, y: Entry)
      requires Valid() && i < |needle| && j < |hay| && j < |d| && j < |m|
      requires i > 0 ==> j < |lastD| && j < |lastM|
      requires RowRule(i, lastD, lastM, d, m, j)
      requires CellAt(i, j, lastD, lastM, d[j := x], m[j := y])
      ensures RowRule(i, lastD, lastM, d[j := x], m[j := y], j + 1)
    {
      var d', m' := d[j := x], m[j := y];
      forall k | 0 <= k < j
        ensures CellAt(i, k, lastD, lastM, d', m')
      {
        assert CellAt(i, k, lastD, lastM, d, m);
      }
    }

    // A row buffer may be longer than the haystack.
    lemma RowTrimmed(i: nat, lastD: seq<Entry>, lastM: seq<Entry>, d: seq<Entry>, m: seq<Entry>)
      requires Valid() && i < |needle| && RowRule(i, lastD, lastM, d, m, |hay|)
      ensures var n := |hay|;
        RowRule(i, if i > 0 then lastD[..n] else [], if i > 0 then lastM[..n] else [], d[..n], m[..n], n)
    {
      var n := |hay|;
      var aboveD, aboveM := if i > 0 then lastD[..n] else [], if i > 0 then lastM[..n] else [];
      var d', m' := d[..n], m[..n];
      forall k | 0 <= k < n
        ensures CellAt(i, k, aboveD, aboveM, d', m')
      {
        assert CellAt(i, k, lastD, lastM, d, m);
      }
    }

    lemma MatricesExtended(d: seq<seq<Entry>>, m: seq<seq<Entry>>, n: nat, x: seq<Entry>, y: seq<Entry>)
      requires Valid() && n < |needle| && Matrices(d, m, n) && |x| == |y| == |hay|
      requires RowRule(n, if n > 0 then d[n - 1] else [], if n > 0 then m[n - 1] else [], x, y, |hay|)
      ensures Matrices(d + [x], m + [y], n + 1)
    {
      forall i | 0 <= i < n + 1
        ensures RowAt(d + [x], m + [y], i)
      {
        if i < n {
          assert RowAt(d, m, i);
        }
      }
    }

    ghost predicate RowAt(d: seq<seq<Entry>>, m: seq<seq<Entry>>, i: nat)
      requires Valid() && i < |needle| && i < |d| && i < |m|
    {
      && |d[i]| == |m[i]| == |hay|
      && RowRule(i, if i > 0 then d[i - 1] else [], if i > 0 then m[i - 1] else [], d[i], m[i], |hay|)
    }

    // The first n rows of both matrices.
    ghost predicate Matrices(d: seq<seq<Entry>>, m: seq<seq<Entry>>, n: nat)
      requires Valid()
    {
      && |d| == |m| == n <= |needle|
      && forall i {:trigger RowAt(d, m, i)} :: 0 <= i < n ==> RowAt(d, m, i)
    }

    // Within a row, m is the running maximum of d less the gap.
    ghost predicate Running(i: nat, d: seq<Entry>, m: seq<Entry>) {
      && |d| == |m| == |hay|
      && forall j {:trigger m[j]} :: 0 <= j < |hay| ==> m[j] == Max(d[j], if j > 0 then Plus(m[j - 1], Gap(i)) else NegInf)
    }

    lemma RowRuns(d: seq<seq<Entry>>, m: seq<seq<Entry>>, i: nat)
      requires Valid() && i < |needle| && i < |d| && i < |m| && RowAt(d, m, i)
      ensures Running(i, d[i], m[i])
    {
      forall j | 0 <= j < |hay|
        ensures m[i][j] == Max(d[i][j], if j > 0 then Plus(m[i][j - 1], Gap(i)) else NegInf)
      {
        assert CellAt(i, j, if i > 0 then d[i - 1] else [], if i > 0 then m[i - 1] else [], d[i], m[i]);
      }
    }

    // A row entry is at least any earlier match of that row, less the gap between.
    lemma {:induction false} RowLowerBound(i: nat, d: seq<Entry>, m: seq<Entry>, j: nat, k: nat)
      requires Running(i, d, m) && j <= k < |hay|
      ensures !Greater(Plus(d[j], Gap(i) * (k - j)), m[k])
      decreases k - j
    {
      if j < k {
        RowLowerBound(i, d, m, j, k - 1);
        assert Gap(i) * (k - j) == Gap(i) * (k - 1 - j) + Gap(i);
      } else {
        assert Gap(i) * (k - j) == 0;
      }
    }

    // And it is reached by one of them.
    lemma {:induction false} RowReached(i: nat, d: seq<Entry>, m: seq<Entry>, k: nat) returns (j: nat)
      requires Running(i, d, m) && k < |hay| && m[k].Fin?
      ensures j <= k && d[j].Fin? && m[k] == Plus(d[j], Gap(i) * (k - j))
      ensures m[j] == d[j]
      decreases k
    {
      if m[k] == d[k] {
        j := k;
        assert Gap(i) * (k - j) == 0;
      } else {
        j := RowReached(i, d, m, k - 1);
        assert Gap(i) * (k - j) == Gap(i) * (k - 1 - j) + Gap(i);
      }
    }

    // The entry of a character after the first, when it matches.
    lemma NextRow(d: seq<seq<Entry>>, m: seq<seq<Entry>>, i: nat, j: nat)
      requires Valid() && Matrices(d, m, |needle|) && 0 < i < |needle| && j < |hay|
      ensures |d[i]| == |d[i - 1]| == |m[i - 1]| == |hay|
      ensures d[i][j].Fin? ==> needle[i] == hay[j] && 0 < j
      ensures needle[i] == hay[j] && 0 < j ==>
        d[i][j] == Max(Plus(m[i - 1][j - 1], bonus[j]), Plus(d[i - 1][j - 1], CONSECUTIVE))
    {
      assert RowAt(d, m, i) && RowAt(d, m, i - 1);
      assert CellAt(i, j, d[i - 1], m[i - 1], d[i], m[i]);
    }

    lemma FirstRow(d: seq<seq<Entry>>, m: seq<seq<Entry>>, j: nat)
      requires Valid() && Matrices(d, m, |needle|) && j < |hay|
      ensures |d[0]| == |hay|
      ensures d[0][j] == if needle[0] == hay[j] then Fin(LEADING_GAP * j + bonus[j]) else NegInf
    {
      assert RowAt(d, m, 0);
      assert CellAt(0, j, [], [], d[0], m[0]);
    }

    // Matching one more character at b costs no more in the matrix than in the scoring rule.
    lemma StepBelow(d: seq<seq<Entry>>, m: seq<seq<Entry>>, i: nat, a: nat, b: nat, v: int)
      requires Valid() && Matrices(d, m, |needle|)
      requires 0 < i < |needle| && a < b < |hay| && needle[i] == hay[b]
      requires |d[i - 1]| == |hay| == |d[i]| && !Greater(Fin(v), d[i - 1][a])
      ensures !Greater(Fin(v + Step(a, b)), d[i][b])
    {
      NextRow(d, m, i, b);
      RowRuns(d, m, i - 1);
      RowLowerBound(i - 1, d[i - 1], m[i - 1], a, b - 1);
      assert Gap(i - 1) * (b - 1 - a) == INNER_GAP * (b - a - 1);
    }

    // No way of placing the first |p| characters beats the matrix.
    lemma {:induction false} PlacesBelow(d: seq<seq<Entry>>, m: seq<seq<Entry>>, p: seq<nat>)
      requires Valid() && Matrices(d, m, |needle|) && Places(p) && 0 < |p|
      ensures |d[|p| - 1]| == |hay| && !Greater(Fin(PlacesScore(p)), d[|p| - 1][p[|p| - 1]])
      decreases |p|
    {
      if |p| == 1 {
        FirstRow(d, m, p[0]);
      } else {
        var i := |p| - 1;
        PlacesBelow(d, m, p[..i]);
        NextRow(d, m, i, p[i]);
        StepBelow(d, m, i, p[i - 1], p[i], PlacesScore(p[..i]));
      }
    }

    // A finite entry below the first row comes from a match in the row above.
    lemma CameFrom(d: seq<seq<Entry>>, m: seq<seq<Entry>>, i: nat, j: nat) returns (a: nat)
      requires Valid() && Matrices(d, m, |needle|) && 0 < i < |needle| && j < |hay|
      requires |d[i]| == |hay| && d[i][j].Fin?
      ensures a < j && needle[i] == hay[j] && |d[i - 1]| == |m[i - 1]| == |hay|
      ensures d[i - 1][a].Fin? && d[i][j].v == d[i - 1][a].v + Step(a, j)
      ensures m[i - 1][j - 1].Fin?
    {
      NextRow(d, m, i, j);
      RowRuns(d, m, i - 1);
      if d[i][j] == Plus(d[i - 1][j - 1], CONSECUTIVE) {
        a := j - 1;
        assert m[i - 1][j - 1] == Max(d[i - 1][j - 1], if j - 1 > 0 then Plus(m[i - 1][j - 2], Gap(i - 1)) else NegInf);
      } else {
        a := RowReached(i - 1, d[i - 1], m[i - 1], j - 1);
        assert Gap(i - 1) * (j - 1 - a) == INNER_GAP * (j - a - 1);
      }
    }

    // Every finite entry is the score of some placement.
    lemma {:induction false} EntryReached(d: seq<seq<Entry>>, m: seq<seq<Entry>>, i: nat, j: nat) returns (p: seq<nat>)
      requires Valid() && Matrices(d, m, |needle|) && i < |needle| && j < |hay|
      requires |d[i]| == |hay| && d[i][j].Fin?
      ensures Places(p) && |p| == i + 1 && p[i] == j && PlacesScore(p) == d[i][j].v
      decreases i
    {
      if i == 0 {
        FirstRow(d, m, j);
        p := [j];
      } else {
        var a := CameFrom(d, m, i, j);
        var q := EntryReached(d, m, i - 1, a);
        p := q + [j];
        assert p[..i] == q;
      }
    }

    lemma EmbeddingBelow(d: seq<seq<Entry>>, m: seq<seq<Entry>>, p: seq<nat>)
      requires Valid() && 0 < |hay| && Matrices(d, m, |needle|) && Embedding(p)
      ensures |m[|needle| - 1]| == |hay|
      ensures var s := m[|needle| - 1][|hay| - 1]; s.Fin? && Total(p) <= s.v
    {
      var i, k := |needle| - 1, |hay| - 1;
      PlacesBelow(d, m, p);
      assert RowAt(d, m, i);
      RowRuns(d, m, i);
      RowLowerBound(i, d[i], m[i], p[i], k);
    }

    lemma EmbeddingReached(d: seq<seq<Entry>>, m: seq<seq<Entry>>) returns (p: seq<nat>)
      requires Valid() && 0 < |hay| && Matrices(d, m, |needle|)
      requires |m[|needle| - 1]| == |hay| && m[|needle| - 1][|hay| - 1].Fin?
      ensures Embedding(p) && Total(p) == m[|needle| - 1][|hay| - 1].v
    {
      var i := |needle| - 1;
      assert RowAt(d, m, i);
      RowRuns(d, m, i);
      var j := RowReached(i, d[i], m[i], |hay| - 1);
      p := EntryReached(d, m, i, j);
    }

    // The last entry of the last row is the score of the best embedding.
    lemma LastEntryIsBest(d: seq<seq<Entry>>, m: seq<seq<Entry>>)
      requires Valid() && 0 < |hay| && Matrices(d, m, |needle|)
      ensures |m[|needle| - 1]| == |hay| && IsBest(m[|needle| - 1][|hay| - 1])
    {
      assert RowAt(d, m, |needle| - 1);
      var s := m[|needle| - 1][|hay| - 1];
      forall p | Embedding(p)
        ensures s.Fin? && Total(p) <= s.v
      {
        EmbeddingBelow(d, m, p);
      }
      if s.Fin? {
        var p := EmbeddingReached(d, m);
      }
    }
  }
}
