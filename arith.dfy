/** Facts about Euclidean division that the index arithmetic and the bit
    staging both lean on. */
module Arith {
  lemma MulAtLeast(k: int, n: int)
    requires n > 0
    ensures k >= 1 ==> k * n >= n
    ensures k <= -1 ==> k * n <= -n
  {
    if k >= 1 {
      assert k * n == (k - 1) * n + n;
    } else if k <= -1 {
      assert k * n == (k + 1) * n - n;
    }
  }

  /** Dividing a non-negative number by a positive one gives a
      non-negative quotient. */
  lemma DivNonNegative(x: int, n: int)
    requires x >= 0 && n > 0
    ensures x / n >= 0
  {
    MulAtLeast(x / n, n);
  }

  /** Euclidean division is unique: a quotient and a remainder in range are
      the ones `/` and `%` give. */
  lemma ModUnique(a: int, n: int, q: int, r: int)
    requires n > 0 && 0 <= r < n && a == q * n + r
    ensures a / n == q && a % n == r
  {
    var q', r' := a / n, a % n;
    assert a == q' * n + r';
    assert (q' - q) * n == r - r';
    MulAtLeast(q' - q, n);
  }

  /** Taking away the remainder leaves a multiple of the divisor. */
  lemma ModCongruent(a: int, n: int)
    requires n > 0
    ensures (a - a % n) % n == 0
  {
    ModUnique(a - a % n, n, a / n, 0);
  }

  /** The remainder is the only value in range congruent to the dividend. */
  lemma RemainderUnique(n: int, a: int, j: int)
    requires n > 0 && 0 <= j < n && (a - j) % n == 0
    ensures j == a % n
  {
    var q := (a - j) / n;
    assert a - j == q * n;
    ModUnique(a, n, q, j);
  }
}
