/** Powers of two, and division with remainder by a variable divisor. */
module Arithmetic {
  function Pow2(n: nat): (p: nat)
    ensures p >= 1
  {
    if n == 0 then 1 else 2 * Pow2(n - 1)
  }

  lemma RemainderNext(k: int, m: nat)
    requires 0 < m && 0 <= k
    ensures (k + m) % m == k % m
  {
    assert k == m * (k / m) + k % m;
    assert k + m == m * (k / m + 1) + k % m;
    QuotientUnique(k + m, m, k / m + 1, k % m);
  }

  lemma SmallMultiple(m: int, d: int)
    requires -m < m * d < m
    ensures d == 0
  {
    assert d >= 1 ==> m * d >= m;
    assert d <= -1 ==> m * d <= -m;
  }

  lemma QuotientUnique(x: int, m: nat, q: int, r: int)
    requires 0 < m && x == m * q + r && 0 <= r < m
    ensures x % m == r && x / m == q
  {
    assert m * (x / m - q) == r - x % m;
    SmallMultiple(m, x / m - q);
  }

  // Between a number and m more, only the number itself leaves its remainder.
  lemma RemainderAlone(k: int, x: int, m: nat)
    requires 0 < m && 0 <= k <= x < k + m && x % m == k % m
    ensures x == k
  {
    assert m * (x / m - k / m) == x - k;
    SmallMultiple(m, x / m - k / m);
  }

  lemma RemainderBelow(k: int, m: nat)
    requires 0 < m && 0 <= k
    ensures k % m <= k
  {
    assert k == m * (k / m) + k % m;
    assert m * (k / m) >= 0;
  }

  function BitAnd(a: nat, b: nat): nat
    decreases a
  {
    if a == 0 || b == 0 then 0
    else 2 * BitAnd(a / 2, b / 2) + (if a % 2 == 1 && b % 2 == 1 then 1 else 0)
  }

  // The remainder by an even number, from the remainder of the half.
  lemma HalfRemainder(w: nat, p: nat)
    requires 0 < p
    ensures w % (2 * p) == 2 * (w / 2 % p) + w % 2
  {
    var q, r, b := w / 2 / p, w / 2 % p, w % 2;
    assert w / 2 == p * q + r;
    assert w == (2 * p) * q + (2 * r + b);
    QuotientUnique(w, 2 * p, q, 2 * r + b);
  }

  lemma BitAndStep(a: nat, b: nat)
    ensures BitAnd(a, b) == 2 * BitAnd(a / 2, b / 2) + (if a % 2 == 1 && b % 2 == 1 then 1 else 0)
  {
  }

  // Masking with 2^n - 1 is the remainder by 2^n.
  lemma {:induction false} MaskIsRemainder(a: nat, n: nat)
    ensures BitAnd(a, Pow2(n) - 1) == a % Pow2(n)
    decreases n
  {
    if n > 0 {
      var p := Pow2(n - 1);
      MaskIsRemainder(a / 2, n - 1);
      HalfRemainder(a, p);
      BitAndStep(a, 2 * p - 1);
      assert (2 * p - 1) / 2 == p - 1 && (2 * p - 1) % 2 == 1;
    }
  }

  lemma TimesOneLess(a: int, x: int)
    ensures a * (x - 1) == a * x - a
  {
  }
}
