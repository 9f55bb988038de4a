/** The Boyer-Moore searcher over the two skip tables. */
module BoyerMoore {
  import opened Wrappers
  import opened Bytes
  import opened LiteralSpec
  import opened SkipTables

  // The window starting at k agrees with the pattern after index i, and not at i.
  ghost predicate MismatchAt(sensitive: bool, s: seq<byte>, find: seq<byte>, k: nat, i: nat) {
    && i < |find| && k + |find| <= |s|
    && (forall x :: i < x < |find| ==> Fold(sensitive, s[k + x]) == find[x])
    && Fold(sensitive, s[k + i]) != find[i]
  }

  // Lining the failing text character up with its last copy in the pattern skips nothing.
  lemma AlphaSkipSafe(sensitive: bool, s: seq<byte>, find: seq<byte>, alpha: seq<nat>, k: nat, i: nat, d: nat)
    requires Folded(sensitive, find) && AlphaTable(sensitive, find, alpha)
    requires MismatchAt(sensitive, s, find, k, i)
    requires 0 < d && d + (|find| - 1 - i) < alpha[s[k + i]]
    ensures !Occurs(sensitive, s, find, k + d)
  {
    var c := s[k + i];
    assert IsAlphaSkip(sensitive, find, |find| - 1, c, alpha[c]);
    if Occurs(sensitive, s, find, k + d) {
      if d <= i {
        assert Fold(sensitive, s[(k + d) + (i - d)]) == find[i - d];
        assert Fold(sensitive, find[i - d]) == find[i - d];
        KeyedIsFold(sensitive, find[i - d], c);
      }
    }
  }

  // An occurrence after a mismatch is one of the possible shifts.
  lemma OccurrenceIsCompatible(sensitive: bool, s: seq<byte>, find: seq<byte>, k: nat, i: nat, d: nat)
    requires MismatchAt(sensitive, s, find, k, i) && Occurs(sensitive, s, find, k + d)
    ensures Compatible(find, i, d)
  {
    forall x | i <= x < |find| && d <= x
      ensures if x == i then find[x - d] != find[x] else find[x - d] == find[x]
    {
      assert s[(k + d) + (x - d)] == s[k + x];
    }
  }

  // Shifting by the good-suffix entry skips nothing.
  lemma FindSkipSafe(sensitive: bool, s: seq<byte>, find: seq<byte>, sl: seq<nat>, k: nat, i: nat, d: nat)
    requires FindSkipTable(find, sl)
    requires MismatchAt(sensitive, s, find, k, i)
    requires 0 < d && d + (|find| - 1 - i) < sl[i]
    ensures !Occurs(sensitive, s, find, k + d)
  {
    assert LeastCompatibleFrom(find, i, 1, sl[i] - (|find| - 1 - i));
    if Occurs(sensitive, s, find, k + d) {
      OccurrenceIsCompatible(sensitive, s, find, k, i, d);
    }
  }

  function AgMax(a: nat, b: nat): nat {
    if b > a then b else a
  }

  method BoyerMooreStrnstr(s: seq<byte>, find: seq<byte>, alphaSkip: array<nat>, findSkip: array<nat>,
                           caseInsensitive: bool)
    returns (r: Option<nat>)
    requires |find| > 0 && Folded(!caseInsensitive, find)
    requires AlphaTable(!caseInsensitive, find, alphaSkip[..])
    requires FindSkipTable(find, findSkip[..])
    ensures IsLeftmost(!caseInsensitive, s, find, r)
  {
    ghost var sensitive := !caseInsensitive;
    var fLen := |find|;
    var pos := fLen - 1;
    while pos < |s|
      invariant fLen - 1 <= pos
      invariant forall k :: 0 <= k < pos - (fLen - 1) ==> !Occurs(sensitive, s, find, k)
      decreases |s| - pos
    {
      var i := fLen - 1;
      ghost var k := pos - i;
      while i >= 0 && (if caseInsensitive then ToLower(s[pos]) else s[pos]) == find[i]
        invariant -1 <= i < fLen
        invariant pos == k + i
        invariant forall x :: i < x < fLen ==> Fold(sensitive, s[k + x]) == find[x]
        decreases i
      {
        pos := pos - 1;
        i := i - 1;
      }
      if i < 0 {
        assert Occurs(sensitive, s, find, k);
        return Some(pos + 1);
      }
      assert MismatchAt(sensitive, s, find, k, i);
      var shift := AgMax(alphaSkip[s[pos]], findSkip[i]);
      pos := pos + shift;
      forall q | 0 <= q < pos - (fLen - 1)
        ensures !Occurs(sensitive, s, find, q)
      {
        if k < q {
          if shift == findSkip[i] {
            FindSkipSafe(sensitive, s, find, findSkip[..], k, i, q - k);
          } else {
            AlphaSkipSafe(sensitive, s, find, alphaSkip[..], k, i, q - k);
          }
        }
      }
    }
    return None;
  }
}
