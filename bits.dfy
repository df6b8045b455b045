/** Python's shifts and bitwise operators on non-negative integers, as the
    base2048 codec uses them: `x << n` is `x * Pow2(n)`, `x >> n` is
    `x / Pow2(n)`, `x & ((1 << n) - 1)` is `x % Pow2(n)`, and `|` is `Or`.
    A run of bits is a `seq<bool>`, most significant bit first. */
module Bits {
  import Arith

  /** `1 << n` */
  function Pow2(n: nat): (p: nat)
    ensures p >= 1
  {
    if n == 0 then 1 else 2 * Pow2(n - 1)
  }

  lemma {:induction false} Pow2Add(m: nat, n: nat)
    ensures Pow2(m + n) == Pow2(m) * Pow2(n)
  {
    if n > 0 {
      Pow2Add(m, n - 1);
      assert Pow2(m + n) == 2 * Pow2(m + n - 1);
    }
  }

  lemma {:induction false} Pow2Monotone(m: nat, n: nat)
    requires m <= n
    ensures Pow2(m) <= Pow2(n)
  {
    if m < n {
      Pow2Monotone(m, n - 1);
    }
  }

  /** `x << n`: `n` doublings. */
  function Shl(x: nat, n: nat): nat {
    if n == 0 then x else 2 * Shl(x, n - 1)
  }

  /** `x >> n`: `n` halvings. */
  function Shr(x: nat, n: nat): nat {
    if n == 0 then x else Shr(x / 2, n - 1)
  }

  /** `x & ((1 << n) - 1)`: the low `n` bits. */
  function Low(x: nat, n: nat): (r: nat)
    ensures r < Pow2(n)
  {
    if n == 0 then 0 else 2 * Low(x / 2, n - 1) + x % 2
  }

  /** Shifting left multiplies by a power of two ... */
  lemma {:induction false} ShlValue(x: nat, n: nat)
    ensures Shl(x, n) == x * Pow2(n)
  {
    if n > 0 {
      ShlValue(x, n - 1);
      Doubled(x, Pow2(n - 1), 0);
    }
  }

  /** ... and shifting right and masking are the quotient and the
      remainder of a division by it. */
  lemma {:induction false} ShrValue(x: nat, n: nat)
    ensures Shr(x, n) == x / Pow2(n) && Low(x, n) == x % Pow2(n)
  {
    if n > 0 {
      ShrValue(x / 2, n - 1);
      var p: int := Pow2(n - 1);
      var q: int, m: int := (x / 2) / p, (x / 2) % p;
      assert x / 2 == q * p + m;
      Doubled(q, p, m);
      Arith.ModUnique(x, 2 * p, q, 2 * m + x % 2);
    }
  }

  /** The value of a run of bits. */
  function FromBits(w: seq<bool>): (v: nat)
    ensures v < Pow2(|w|)
  {
    if w == [] then 0 else FromBits(w[..|w| - 1]) * 2 + (if w[|w| - 1] then 1 else 0)
  }

  /** The low `n` bits of `v`. */
  function ToBits(v: nat, n: nat): (w: seq<bool>)
    ensures |w| == n
  {
    if n == 0 then [] else ToBits(v / 2, n - 1) + [v % 2 == 1]
  }

  /** Python's `a | b` on non-negative integers. */
  function Or(a: nat, b: nat): nat
    decreases a + b
  {
    if a == 0 then b
    else if b == 0 then a
    else Or(a / 2, b / 2) * 2 + (if a % 2 == 1 || b % 2 == 1 then 1 else 0)
  }

  /** Or-ing bits into the zeros left by a shift adds them: the usual
      `(stage << n) | bits` staging step, when `bits` fits in `n` bits. */
  lemma {:induction false} OrShift(a: nat, n: nat, b: nat)
    requires b < Pow2(n)
    ensures Or(a * Pow2(n), b) == a * Pow2(n) + b
  {
    var x := a * Pow2(n);
    if n > 0 && x != 0 && b != 0 {
      assert x == 2 * (a * Pow2(n - 1));
      assert x / 2 == a * Pow2(n - 1) && x % 2 == 0;
      OrShift(a, n - 1, b / 2);
    }
  }

  lemma Doubled(x: int, p: int, y: int)
    ensures (x * p + y) * 2 == x * (2 * p) + y * 2
  {
  }

  /** Appending bits shifts the value of the front. */
  lemma {:induction false} FromBitsAppend(a: seq<bool>, b: seq<bool>)
    ensures FromBits(a + b) == FromBits(a) * Pow2(|b|) + FromBits(b)
  {
    if b != [] {
      var b' := b[..|b| - 1];
      assert (a + b)[..|a + b| - 1] == a + b';
      FromBitsAppend(a, b');
      var fa: int, fb: int, p: int, bit: int := FromBits(a), FromBits(b'), Pow2(|b'|), if b[|b| - 1] then 1 else 0;
      assert FromBits(a + b) == (fa * p + fb) * 2 + bit;
      assert FromBits(b) == fb * 2 + bit;
      assert Pow2(|b|) == 2 * p;
      Doubled(fa, p, fb);
    } else {
      assert a + b == a;
    }
  }

  /** The front and the back of a run can be read off its value. */
  lemma SplitValue(a: seq<bool>, b: seq<bool>)
    ensures FromBits(a + b) / Pow2(|b|) == FromBits(a)
    ensures FromBits(a + b) % Pow2(|b|) == FromBits(b)
  {
    FromBitsAppend(a, b);
    Arith.ModUnique(FromBits(a + b), Pow2(|b|), FromBits(a), FromBits(b));
  }

  /** Writing a value in `n` bits and reading it back gives the value. */
  lemma {:induction false} FromToBits(v: nat, n: nat)
    requires v < Pow2(n)
    ensures FromBits(ToBits(v, n)) == v
  {
    if n > 0 {
      var w := ToBits(v, n);
      assert w[..n - 1] == ToBits(v / 2, n - 1);
      FromToBits(v / 2, n - 1);
    }
  }

  /** Reading a run of bits and writing it back gives the run. */
  lemma {:induction false} ToFromBits(w: seq<bool>)
    ensures ToBits(FromBits(w), |w|) == w
  {
    if w != [] {
      var v := FromBits(w);
      var f := w[..|w| - 1];
      assert v / 2 == FromBits(f) && v % 2 == (if w[|w| - 1] then 1 else 0);
      ToFromBits(f);
      assert w == f + [w[|w| - 1]];
    }
  }
}
