/** The two Boyer-Moore tables: the bad-character table and the strong good-suffix table. */
module SkipTables {
  import opened Bytes
  import opened LiteralSpec

  // Text character c is written to the bad-character table for pattern character p.
  predicate Keyed(sensitive: bool, p: byte, c: byte) {
    if sensitive then c == p else c == ToLower(p) || c == ToUpper(p)
  }

  lemma KeyedIsFold(sensitive: bool, p: byte, c: byte)
    requires Fold(sensitive, p) == p
    ensures Keyed(sensitive, p, c) <==> Fold(sensitive, c) == p
  {
    if !sensitive {
      FoldPreimage(c, p);
    }
  }

  // d is the distance from the end of the first n pattern characters' last copy of c,
  // the pattern length when there is none.
  ghost predicate IsAlphaSkip(sensitive: bool, find: seq<byte>, n: nat, c: byte, d: int)
    requires n < |find|
  {
    var last := |find| - 1;
    if d == |find| then
      forall k :: 0 <= k < n ==> !Keyed(sensitive, find[k], c)
    else
      && last - n < d <= last
      && Keyed(sensitive, find[last - d], c)
      && forall k :: last - d < k < n ==> !Keyed(sensitive, find[k], c)
  }

  ghost predicate AlphaTable(sensitive: bool, find: seq<byte>, skip: seq<nat>) {
    && |find| > 0
    && |skip| == 256
    && forall c: byte :: IsAlphaSkip(sensitive, find, |find| - 1, c, skip[c])
  }

  method GenerateAlphaSkip(find: seq<byte>, skip: array<nat>, sensitive: bool)
    requires |find| > 0 && skip.Length == 256
    modifies skip
    ensures AlphaTable(sensitive, find, skip[..])
  {
    var fLen := |find|;
    var i := 0;
    while i < 256
      invariant 0 <= i <= 256
      invariant forall c :: 0 <= c < i ==> skip[c] == |find|
    {
      skip[i] := fLen;
      i := i + 1;
    }
    fLen := fLen - 1;
    i := 0;
    while i < fLen
      invariant 0 <= i <= fLen
      invariant forall c: byte :: IsAlphaSkip(sensitive, find, i, c, skip[c])
    {
      ghost var before := skip[..];
      if sensitive {
        skip[find[i]] := fLen - i;
      } else {
        skip[ToLower(find[i])] := fLen - i;
        skip[ToUpper(find[i])] := fLen - i;
      }
      forall c: byte
        ensures IsAlphaSkip(sensitive, find, i + 1, c, skip[c])
      {
        assert IsAlphaSkip(sensitive, find, i, c, before[c]);
        if Keyed(sensitive, find[i], c) {
          assert skip[c] == fLen - i;
        } else {
          assert skip[c] == before[c];
        }
      }
      i := i + 1;
    }
  }

  // The pattern from pos on is one of its own prefixes, that is, pos is a period.
  ghost predicate Period(sensitive: bool, s: seq<byte>, pos: nat) {
    forall i :: 0 <= i && pos + i < |s| ==> Fold(sensitive, s[i]) == Fold(sensitive, s[pos + i])
  }

  method IsPrefix(s: seq<byte>, pos: nat, sensitive: bool) returns (r: bool)
    ensures r <==> Period(sensitive, s, pos)
  {
    var i := 0;
    while pos + i < |s|
      invariant 0 <= i
      invariant forall k :: 0 <= k < i && pos + k < |s| ==> Fold(sensitive, s[k]) == Fold(sensitive, s[pos + k])
    {
      if Fold(sensitive, s[i]) != Fold(sensitive, s[pos + i]) {
        return false;
      }
      i := i + 1;
    }
    return true;
  }

  // The last n characters agree with the n characters ending at pos.
  ghost predicate SuffixAgrees(sensitive: bool, s: seq<byte>, pos: nat, n: nat)
    requires pos < |s| && n <= pos + 1
  {
    var d := |s| - 1 - pos;
    forall k :: |s| - n <= k < |s| ==> Fold(sensitive, s[k - d]) == Fold(sensitive, s[k])
  }

  method SuffixLen(s: seq<byte>, pos: nat, sensitive: bool) returns (n: nat)
    requires pos < |s|
    ensures n <= pos && SuffixAgrees(sensitive, s, pos, n)
    ensures n < pos ==> Fold(sensitive, s[pos - n]) != Fold(sensitive, s[|s| - 1 - n])
  {
    n := 0;
    while n < pos
      invariant n <= pos && SuffixAgrees(sensitive, s, pos, n)
    {
      if Fold(sensitive, s[pos - n]) != Fold(sensitive, s[|s| - 1 - n]) {
        break;
      }
      n := n + 1;
    }
  }

  // After a mismatch at pattern index j, shifting the pattern by d can still line up: the
  // matched characters after j agree with what lands on them, and the character landing on
  // the mismatch differs from the one that failed.
  ghost predicate Compatible(find: seq<byte>, j: nat, d: nat)
    requires j < |find|
  {
    && (forall k :: j < k < |find| && d <= k ==> find[k - d] == find[k])
    && (d <= j ==> find[j - d] != find[j])
  }

  ghost predicate LeastCompatibleFrom(find: seq<byte>, j: nat, lo: nat, d: nat)
    requires j < |find|
  {
    && lo <= d
    && Compatible(find, j, d)
    && forall e :: lo <= e < d ==> !Compatible(find, j, e)
  }

  // The exact contents of the good-suffix table: each entry is the matched length plus the
  // least shift that is still possible.
  ghost predicate FindSkipTable(find: seq<byte>, sl: seq<nat>) {
    && |sl| == |find|
    && forall j :: 0 <= j < |find| ==>
         var matched := |find| - 1 - j;
         sl[j] > matched && LeastCompatibleFrom(find, j, 1, sl[j] - matched)
  }

  ghost predicate SkipEntry(find: seq<byte>, j: nat, lo: nat, entry: nat)
    requires j < |find|
  {
    entry >= |find| - 1 - j && LeastCompatibleFrom(find, j, lo, entry - (|find| - 1 - j))
  }

  lemma FullShiftCompatible(find: seq<byte>, j: nat)
    requires j < |find|
    ensures Compatible(find, j, |find|)
  {
  }

  // A shift beyond the mismatch is possible exactly when it is a period.
  lemma CompatibleBeyond(sensitive: bool, find: seq<byte>, j: nat, d: nat)
    requires Folded(sensitive, find) && j < d && j < |find|
    ensures Compatible(find, j, d) <==> Period(sensitive, find, d)
  {
    if Compatible(find, j, d) {
      forall i | 0 <= i && d + i < |find|
        ensures Fold(sensitive, find[i]) == Fold(sensitive, find[d + i])
      {
        assert find[(d + i) - d] == find[d + i];
      }
    }
    if Period(sensitive, find, d) {
      forall k | j < k < |find| && d <= k
        ensures find[k - d] == find[k]
      {
        assert Fold(sensitive, find[k - d]) == Fold(sensitive, find[d + (k - d)]);
      }
    }
  }

  // A shift d <= j is possible exactly when the suffix ending at f_len - 1 - d has length
  // f_len - 1 - j and is preceded by a different character.
  lemma CompatibleWithin(sensitive: bool, find: seq<byte>, j: nat, d: nat, n: nat)
    requires Folded(sensitive, find) && d <= j < |find|
    requires var pos := |find| - 1 - d;
      && n <= pos && SuffixAgrees(sensitive, find, pos, n)
      && (n < pos ==> Fold(sensitive, find[pos - n]) != Fold(sensitive, find[|find| - 1 - n]))
    ensures Compatible(find, j, d) <==> n == |find| - 1 - j && find[j - d] != find[j]
  {
    var m := |find| - 1 - j;
    var k := |find| - 1 - n;
    if n < m {
      assert d <= k ==> find[k - d] != find[k];
    } else if n > m {
      assert Fold(sensitive, find[j - d]) == Fold(sensitive, find[j]);
    } else {
      forall k | j < k < |find| && d <= k
        ensures find[k - d] == find[k]
      {
        assert Fold(sensitive, find[k - d]) == Fold(sensitive, find[k]);
      }
    }
  }

  // First pass: beyond the mismatch only periods count.
  lemma PrefixEntry(sensitive: bool, find: seq<byte>, j: nat, period: nat)
    requires Folded(sensitive, find) && j < |find| && j < period
    requires Period(sensitive, find, period)
    requires forall d :: j < d < period ==> !Period(sensitive, find, d)
    ensures SkipEntry(find, j, j + 1, period + (|find| - 1 - j))
  {
    forall d | j < d <= period
      ensures Compatible(find, j, d) <==> Period(sensitive, find, d)
    {
      CompatibleBeyond(sensitive, find, j, d);
    }
  }

  ghost predicate PrefixPass(find: seq<byte>, from: nat, sl: seq<nat>) {
    |sl| == |find| && forall j :: from <= j < |find| ==> SkipEntry(find, j, j + 1, sl[j])
  }

  lemma PrefixStep(sensitive: bool, find: seq<byte>, j: nat, period: nat, sl: seq<nat>)
    requires Folded(sensitive, find) && j < |find| && j < period <= |find|
    requires Period(sensitive, find, period)
    requires forall d :: j < d < period ==> !Period(sensitive, find, d)
    requires PrefixPass(find, j + 1, sl)
    ensures PrefixPass(find, j, sl[j := period + (|find| - 1 - j)])
  {
    PrefixEntry(sensitive, find, j, period);
  }

  // The shifts known to the table while the second pass still has to try 0, ..., left - 1.
  function KnownFrom(j: nat, left: nat): nat {
    if j + 1 < left then j + 1 else left
  }

  ghost predicate SuffixPass(find: seq<byte>, left: nat, sl: seq<nat>) {
    |sl| == |find| && forall j :: 0 <= j < |find| ==> SkipEntry(find, j, KnownFrom(j, left), sl[j])
  }

  // Second pass: trying the shift d either overwrites the one entry it is possible for, or
  // is possible for none.
  lemma SuffixEntry(sensitive: bool, find: seq<byte>, d: nat, n: nat, before: seq<nat>, after: seq<nat>)
    requires Folded(sensitive, find) && d < |find|
    requires SuffixPass(find, d + 1, before)
    requires var pos := |find| - 1 - d;
      && n <= pos && SuffixAgrees(sensitive, find, pos, n)
      && (n < pos ==> Fold(sensitive, find[pos - n]) != Fold(sensitive, find[|find| - 1 - n]))
    requires var j := |find| - 1 - n;
      after == if find[j - d] != find[j] then before[j := d + n] else before
    ensures SuffixPass(find, d, after)
  {
    forall j | 0 <= j < |find|
      ensures SkipEntry(find, j, KnownFrom(j, d), after[j])
    {
      assert SkipEntry(find, j, KnownFrom(j, d + 1), before[j]);
      if d <= j {
        CompatibleWithin(sensitive, find, j, d, n);
        ShiftTried(find, j, d, before[j]);
      }
    }
  }

  // Trying a shift within the mismatch: possible, it is the entry; impossible, it is no loss.
  lemma ShiftTried(find: seq<byte>, j: nat, d: nat, entry: nat)
    requires d <= j < |find| && SkipEntry(find, j, d + 1, entry)
    ensures if Compatible(find, j, d) then SkipEntry(find, j, d, d + (|find| - 1 - j)) else SkipEntry(find, j, d, entry)
  {
  }

  lemma SuffixPassDone(find: seq<byte>, sl: seq<nat>)
    requires SuffixPass(find, 0, sl)
    ensures FindSkipTable(find, sl)
  {
    forall j | 0 <= j < |find|
      ensures sl[j] > |find| - 1 - j && LeastCompatibleFrom(find, j, 1, sl[j] - (|find| - 1 - j))
    {
      assert SkipEntry(find, j, 0, sl[j]);
      assert !Compatible(find, j, 0);
    }
  }

  method FillFromPrefixes(find: seq<byte>, sl: array<nat>, sensitive: bool)
    requires |find| == sl.Length && Folded(sensitive, find)
    modifies sl
    ensures SuffixPass(find, |find|, sl[..])
  {
    var fLen := |find|;
    var lastPrefix := fLen;
    var i := lastPrefix;
    while i > 0
      invariant 0 <= i <= lastPrefix <= fLen
      invariant Period(sensitive, find, lastPrefix)
      invariant forall d :: i < d < lastPrefix ==> !Period(sensitive, find, d)
      invariant PrefixPass(find, i, sl[..])
    {
      var isPrefix := IsPrefix(find, i, sensitive);
      if isPrefix {
        lastPrefix := i;
      }
      PrefixStep(sensitive, find, i - 1, lastPrefix, sl[..]);
      ghost var before := sl[..];
      sl[i - 1] := lastPrefix + (fLen - i);
      assert sl[..] == before[i - 1 := sl[i - 1]];
      i := i - 1;
    }
  }

  method OverwriteFromSuffixes(find: seq<byte>, sl: array<nat>, sensitive: bool)
    requires |find| == sl.Length && Folded(sensitive, find)
    requires SuffixPass(find, |find|, sl[..])
    modifies sl
    ensures SuffixPass(find, 0, sl[..])
  {
    var fLen := |find|;
    var i := 0;
    while i < fLen
      invariant 0 <= i <= fLen
      invariant SuffixPass(find, fLen - i, sl[..])
    {
      ghost var before := sl[..];
      var sLen := SuffixLen(find, i, sensitive);
      if find[i - sLen] != find[fLen - 1 - sLen] {
        sl[fLen - 1 - sLen] := (fLen - 1 - i) + sLen;
      }
      SuffixEntry(sensitive, find, fLen - 1 - i, sLen, before, sl[..]);
      i := i + 1;
    }
  }

  method GenerateFindSkip(find: seq<byte>, sensitive: bool) returns (sl: array<nat>)
    requires |find| > 0 && Folded(sensitive, find)
    ensures fresh(sl) && FindSkipTable(find, sl[..])
  {
    sl := new nat[|find|];
    FillFromPrefixes(find, sl, sensitive);
    OverwriteFromSuffixes(find, sl, sensitive);
    SuffixPassDone(find, sl[..]);
  }

  // The first entry holds the smallest period of the pattern.
  lemma FirstEntryIsPeriod(sensitive: bool, find: seq<byte>, sl: seq<nat>)
    requires |find| > 0 && Folded(sensitive, find) && FindSkipTable(find, sl)
    ensures var p := sl[0] - |find| + 1;
      && 1 <= p <= |find|
      && Period(sensitive, find, p)
      && forall d :: 1 <= d < p ==> !Period(sensitive, find, d)
  {
    var p := sl[0] - |find| + 1;
    assert LeastCompatibleFrom(find, 0, 1, p);
    FullShiftCompatible(find, 0);
    forall d | 1 <= d <= p
      ensures Compatible(find, 0, d) <==> Period(sensitive, find, d)
    {
      CompatibleBeyond(sensitive, find, 0, d);
    }
  }

  // After an occurrence, the next one is at least the smallest period away.
  lemma PeriodSkipsNothing(sensitive: bool, text: seq<byte>, find: seq<byte>, sl: seq<nat>, k: nat, d: nat)
    requires |find| > 0 && Folded(sensitive, find) && FindSkipTable(find, sl)
    requires Occurs(sensitive, text, find, k) && 0 < d < sl[0] - |find| + 1
    ensures !Occurs(sensitive, text, find, k + d)
  {
    FirstEntryIsPeriod(sensitive, find, sl);
    if Occurs(sensitive, text, find, k + d) {
      forall i | 0 <= i && d + i < |find|
        ensures Fold(sensitive, find[i]) == Fold(sensitive, find[d + i])
      {
        assert Fold(sensitive, text[(k + d) + i]) == find[i];
        assert Fold(sensitive, text[k + (d + i)]) == find[d + i];
      }
      assert Period(sensitive, find, d);
    }
  }
}
