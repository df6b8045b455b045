/** Exact binomial coefficients, `ncr` in src/salamander/dicemath.py. */
module Binomial {

  /** C(n, r) by Pascal's rule: the number of r-element subsets of an
      n-element set, and zero when r lies outside [0, n]. */
  function Choose(n: int, r: int): nat
    decreases n
  {
    if r < 0 || r > n then 0
    else if r == 0 || r == n then 1
    else Choose(n - 1, r - 1) + Choose(n - 1, r)
  }

  /** `ncr(n, r)`: a running product of n, n-1, ... over a running factorial,
      then a floor division. Line 24 replaces r by n - r whenever r > 0, so
      the loop runs n - r times (and C(n, n - r) is computed). */
  method Ncr(n: int, r: int) returns (c: int)
    ensures c == Choose(n, r)
    ensures c > 0 <==> 0 <= r <= n
  {
    if 0 <= r <= n {
      var ntok, rtok := 1, 1;
      var k := if n - r < n then n - r else r;
      for t := 0 to k
        invariant rtok > 0
        invariant ntok == Choose(n, t) * rtok
      {
        ChooseStep(n, t);
        StepArith(ntok, rtok, Choose(n, t), Choose(n, t + 1), n - t, t + 1);
        ntok := ntok * (n - t);
        rtok := rtok * (t + 1);
      }
      ChooseSymmetric(n, r);
      ChoosePositive(n, k);
      ExactDivision(ntok, rtok, Choose(n, k));
      c := ntok / rtok;
    } else {
      c := 0;
    }
  }

  lemma StepArith(ntok: int, rtok: int, c: int, c': int, m: int, d: int)
    requires ntok == c * rtok && d * c' == m * c
    ensures ntok * m == c' * (rtok * d)
  {
    calc {
      ntok * m;
      c * rtok * m;
      (m * c) * rtok;
      (d * c') * rtok;
      c' * (rtok * d);
    }
  }

  /** The floor division on line 28 is exact. */
  lemma ExactDivision(ntok: int, rtok: int, c: int)
    requires rtok > 0 && ntok == c * rtok
    ensures ntok / rtok == c && ntok % rtok == 0
  {
    var q, m := ntok / rtok, ntok % rtok;
    assert (c - q) * rtok == m by {
      assert ntok == q * rtok + m;
    }
    assert c - q >= 1 ==> (c - q) * rtok >= rtok;
    assert c - q <= -1 ==> (c - q) * rtok <= -rtok;
  }

  /** Pascal's rule, also at the borders of the triangle. */
  lemma Pascal(n: int, k: int)
    requires n >= 1
    ensures Choose(n, k) == Choose(n - 1, k - 1) + Choose(n - 1, k)
  {
  }

  /** C(n, r) is positive exactly inside the triangle. */
  lemma {:induction false} ChoosePositive(n: int, r: int)
    ensures Choose(n, r) > 0 <==> 0 <= r <= n
  {
    if 0 < r < n {
      ChoosePositive(n - 1, r);
    }
  }

  /** C(n, r) == C(n, n - r): the reason the swap on line 24 changes nothing. */
  lemma {:induction false} ChooseSymmetric(n: int, r: int)
    ensures Choose(n, r) == Choose(n, n - r)
    decreases n
  {
    if 0 < r < n {
      ChooseSymmetric(n - 1, r - 1);
      ChooseSymmetric(n - 1, r);
    }
  }

  /** k * C(n, k) == n * C(n - 1, k - 1) */
  lemma {:induction false} AbsorbLeft(n: int, k: int)
    requires n >= 1
    ensures k * Choose(n, k) == n * Choose(n - 1, k - 1)
    decreases n
  {
    if 0 < k < n {
      Pascal(n, k);
      Pascal(n - 1, k - 1);
      AbsorbLeft(n - 1, k);
      AbsorbLeft(n - 1, k - 1);
      AbsorbArith(n, k, Choose(n - 1, k - 1), Choose(n - 1, k), Choose(n - 2, k - 2), Choose(n - 2, k - 1));
    }
  }

  lemma AbsorbArith(n: int, k: int, a: int, b: int, p: int, q: int)
    requires k * b == (n - 1) * q && (k - 1) * a == (n - 1) * p && a == p + q
    ensures k * (a + b) == n * a
  {
    calc {
      k * (a + b);
      k * a + k * b;
      (k - 1) * a + a + k * b;
      (n - 1) * p + a + (n - 1) * q;
      (n - 1) * (p + q) + a;
      n * a;
    }
  }

  /** (n - k) * C(n, k) == n * C(n - 1, k) */
  lemma {:induction false} AbsorbRight(n: int, k: int)
    requires n >= 1
    ensures (n - k) * Choose(n, k) == n * Choose(n - 1, k)
  {
    ChooseSymmetric(n, k);
    ChooseSymmetric(n - 1, k);
    AbsorbLeft(n, n - k);
    assert Choose(n - 1, n - k - 1) == Choose(n - 1, k) by {
      ChooseSymmetric(n - 1, n - k - 1);
    }
  }

  /** One step of the loop: (t + 1) * C(n, t + 1) == (n - t) * C(n, t). */
  lemma ChooseStep(n: int, t: int)
    requires 0 <= t <= n
    ensures (t + 1) * Choose(n, t + 1) == (n - t) * Choose(n, t)
  {
    if n >= 1 {
      AbsorbLeft(n, t + 1);
      AbsorbRight(n, t);
    }
  }
}
