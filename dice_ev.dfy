/** The expected-value formulas of src/salamander/dicemath.py, lines 32-64
    and 133-139, over exact reals instead of Python floats. Only their
    shape is modelled: which triple sum is formed and which branch
    `fast_analytic_ev` takes; nothing is claimed about their accuracy. */
module DiceEv {
  import opened Binomial

  function Pow(b: real, e: nat): real {
    if e == 0 then 1.0 else b * Pow(b, e - 1)
  }

  /** `_inner_flattened_cdf_math(quant, sides, i, j)` */
  function CdfTerm(quant: nat, sides: nat, i: nat, j: nat): real
    requires 0 < sides && i <= quant
  {
    var s := sides as real;
    var x := Pow((sides - j) as real / s, i) * Pow(j as real / s, quant - i);
    var y := Pow((sides - j + 1) as real / s, i) * Pow((j - 1) as real / s, quant - i);
    Choose(quant, i) as real * (x - y)
  }

  /** The sum of `CdfTerm(quant, sides, i, j)` for i in range(count). */
  function InnerSum(quant: nat, sides: nat, j: nat, count: nat): real
    requires 0 < sides && count <= quant + 1
  {
    if count == 0 then 0.0 else InnerSum(quant, sides, j, count - 1) + CdfTerm(quant, sides, count - 1, j)
  }

  /** The sum of `j * InnerSum(quant, sides, j, count)` for j in range(1, faces + 1). */
  function MiddleSum(quant: nat, sides: nat, count: nat, faces: nat): real
    requires 0 < sides && count <= quant + 1
  {
    if faces == 0 then 0.0
    else MiddleSum(quant, sides, count, faces - 1) + faces as real * InnerSum(quant, sides, faces, count)
  }

  /** `_ev_roll_dice_keep_best(quant, sides, keep)`: k runs over range(keep), i over range(k + 1). */
  function KeepBestEv(quant: nat, sides: nat, keep: nat): real
    requires 0 < sides && keep <= quant
  {
    if keep == 0 then 0.0 else KeepBestEv(quant, sides, keep - 1) + MiddleSum(quant, sides, keep, sides)
  }

  /** `_ev_roll_dice_keep_worst(quant, sides, keep)`: k runs over range(1, keep + 1), i over range(quant - k + 1). */
  function KeepWorstEv(quant: nat, sides: nat, keep: nat): real
    requires 0 < sides && keep <= quant
  {
    if keep == 0 then 0.0
    else KeepWorstEv(quant, sides, keep - 1) + MiddleSum(quant, sides, quant - keep + 1, sides)
  }

  /** The keep-worst sum for K dice is the keep-best sum for all the dice
      less the keep-best sum for the other quant - K: the two formulas add up
      the same order-statistic terms from opposite ends. */
  lemma {:induction false} KeepWorstComplement(quant: nat, sides: nat, keep: nat)
    requires 0 < sides && keep <= quant
    ensures KeepWorstEv(quant, sides, keep) == KeepBestEv(quant, sides, quant) - KeepBestEv(quant, sides, quant - keep)
  {
    if keep > 0 {
      KeepWorstComplement(quant, sides, keep - 1);
      assert quant - (keep - 1) == quant - keep + 1;
    }
  }

  /** The expected sum of `quant` unfiltered dice of `sides` faces. */
  function PlainEv(quant: nat, sides: nat): real {
    (quant * (sides + 1)) as real / 2.0
  }

  /** `fast_analytic_ev(quant, sides, low, high)`: keep-best when fewer than
      all dice are kept from the top, else keep-worst when a low count is set,
      else the closed form. */
  function FastAnalyticEv(quant: nat, sides: nat, low: nat, high: nat): real
    requires 0 < sides && low <= quant
  {
    if high < quant then KeepBestEv(quant, sides, high)
    else if low != 0 then KeepWorstEv(quant, sides, low)
    else PlainEv(quant, sides)
  }
}
