/** What a literal search must return, stated without any table. */
module LiteralSpec {
  import opened Wrappers
  import opened Bytes

  // The pattern starts at position k of the text.
  predicate Occurs(sensitive: bool, text: seq<byte>, pat: seq<byte>, k: int) {
    && 0 <= k <= k + |pat| <= |text|
    && forall i :: 0 <= i < |pat| ==> Fold(sensitive, text[k + i]) == pat[i]
  }

  // In insensitive mode the option parser lowercases the query before any table is built.
  predicate Folded(sensitive: bool, pat: seq<byte>) {
    forall i :: 0 <= i < |pat| ==> Fold(sensitive, pat[i]) == pat[i]
  }

  // r is the leftmost occurrence, or None exactly when there is none.
  ghost predicate IsLeftmost(sensitive: bool, text: seq<byte>, pat: seq<byte>, r: Option<nat>) {
    match r
    case Some(k) =>
      Occurs(sensitive, text, pat, k) && forall j :: 0 <= j < k ==> !Occurs(sensitive, text, pat, j)
    case None =>
      forall j :: !Occurs(sensitive, text, pat, j)
  }

  lemma LeftmostUnique(sensitive: bool, text: seq<byte>, pat: seq<byte>, r: Option<nat>, q: Option<nat>)
    requires IsLeftmost(sensitive, text, pat, r) && IsLeftmost(sensitive, text, pat, q)
    ensures r == q
  {
    assert r.Some? && q.Some? ==> !(r.value < q.value) && !(q.value < r.value);
  }

  // Searching what is left of a buffer finds the same places, moved by the offset.
  lemma OccursInSuffix(sensitive: bool, buf: seq<byte>, pat: seq<byte>, off: nat, k: int)
    requires off <= |buf| && 0 <= k
    ensures Occurs(sensitive, buf[off..], pat, k) <==> Occurs(sensitive, buf, pat, off + k)
  {
    if k + |pat| <= |buf| - off {
      var rest := buf[off..];
      if Occurs(sensitive, buf, pat, off + k) {
        forall i | 0 <= i < |pat|
          ensures Fold(sensitive, rest[k + i]) == pat[i]
        {
          assert rest[k + i] == buf[(off + k) + i];
        }
      }
      if Occurs(sensitive, rest, pat, k) {
        forall i | 0 <= i < |pat|
          ensures Fold(sensitive, buf[(off + k) + i]) == pat[i]
        {
          assert rest[k + i] == buf[(off + k) + i];
        }
      }
    }
  }
}
