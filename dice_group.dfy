/** One die group `NdS`, `NdSvK` or `NdS^K`: class `NumberofDice` and
    `fast_roll` in src/salamander/dicemath.py, and the error classes of the
    dice engine. The random draws of `random.choices` are a parameter:
    the outcomes of the group's dice, in the order they were drawn. */
module DiceGroups {
  import opened Wrappers
  import opened Text
  import opened Sorting
  import DiceEv

  /** `DiceError` and its subclasses. `NoMatch` is a bare `DiceError`, raised
      when neither scanner pattern matches. The last three carry the
      expression text built so far, as their messages do. */
  datatype DiceError =
    | NoMatch
    | TooManyDice
    | TooManyKept
    | ExpectedOperator(current: string)
    | ExpectedNumberOrDie(current: string)
    | IncompleteExpression(current: string)

  /** `v` keeps the lowest dice, `^` the highest. */
  datatype KeepMode = KeepLowest | KeepHighest

  /** The optional `kd`/`kdquant` suffix as matched. */
  datatype KeepFilter = KeepFilter(mode: KeepMode, count: int)

  /** A `NumberofDice`: `quant` dice of `sides` faces and an optional keep filter.
      `keep_low`, `keep_high` and the properties `low` and `high` are derived. */
  datatype DieGroup = DieGroup(quant: int, sides: int, filter: Option<KeepFilter>) {

    /** What every group built from a scanner match satisfies. */
    predicate Valid() {
      1 <= quant && 1 <= sides && (filter.Some? ==> 1 <= filter.value.count <= quant)
    }

    /** The number of dice whose values the group adds up. */
    function KeptCount(): int {
      if filter.Some? then filter.value.count else quant
    }

    /** `self.keep_low` (lines 164-173) */
    function KeepLow(): int {
      match filter
      case None => 0
      case Some(f) => if f.mode == KeepLowest then Min(f.count, quant) else 0
    }

    /** `self.keep_high` (lines 164-173) */
    function KeepHigh(): int {
      match filter
      case None => quant
      case Some(f) => if f.mode == KeepLowest then quant else Min(f.count, quant)
    }

    /** `low`: the smallest total the group can contribute. */
    function Low(): (r: int)
      ensures Valid() ==> r == KeptCount()
    {
      if filter.Some? then (if KeepLow() != 0 then KeepLow() else KeepHigh()) else quant
    }

    /** `high`: its largest total. */
    function High(): (r: int)
      ensures Valid() ==> r == KeptCount() * sides
    {
      if filter.None? then quant * sides
      else (if KeepLow() != 0 then KeepLow() else KeepHigh()) * sides
    }

    /** `str(die)`, e.g. `4d6^3`. */
    function ToString(): string {
      IntToString(quant) + "d" + IntToString(sides) + KeepText(filter)
    }

    /** The bounds `low, high` that `roll` passes to `fast_roll` (lines 233-238):
        a slice of the sorted outcomes that holds exactly the kept dice, taken
        from the top for `^K` and from the bottom for `vK`, except that
        `NdS^N` gets the empty slice. */
    function RollSlice(): (r: (int, int))
      ensures Valid() ==> 0 <= r.0 <= r.1 <= quant
      ensures Valid() && !KeepsAllHighest() ==> r.1 - r.0 == KeptCount()
      ensures Valid() && filter.Some? && filter.value.mode == KeepHighest && !KeepsAllHighest() ==> r.1 == quant
      ensures filter.Some? && filter.value.mode == KeepLowest ==> r.0 == 0
      ensures Valid() && KeepsAllHighest() ==> r == (0, 0)
    {
      if filter.Some? && KeepHigh() < quant then (quant - KeepHigh(), quant)
      else if filter.Some? then (0, KeepLow())
      else (0, quant)
    }

    /** `get_ev()` */
    function Ev(): real
      requires Valid()
    {
      DiceEv.FastAnalyticEv(quant, sides, KeepLow(), KeepHigh())
    }

    /** `NdS^N`: keep the N highest of N dice. */
    predicate KeepsAllHighest() {
      filter == Some(KeepFilter(KeepHighest, quant))
    }
  }

  function Min(a: int, b: int): int { if a <= b then a else b }

  /** `_kd_expr`: the matched `kd` character and count, or empty. */
  function KeepText(filter: Option<KeepFilter>): string {
    match filter
    case None => ""
    case Some(f) => (if f.mode == KeepLowest then "v" else "^") + IntToString(f.count)
  }

  /** `NumberofDice(quant, sides, kd, kdquant)`: refuses to keep more dice than
      are rolled. The scanner only passes positive quantities, sides and counts. */
  function MakeDieGroup(quant: int, sides: int, filter: Option<KeepFilter>): (r: Result<DieGroup, DiceError>)
    requires 1 <= quant && 1 <= sides && (filter.Some? ==> 1 <= filter.value.count)
    ensures r.Failure? <==> filter.Some? && filter.value.count > quant
    ensures r.Failure? ==> r.error == TooManyKept
    ensures r.Success? ==> r.value.Valid() && r.value == DieGroup(quant, sides, filter)
  {
    if filter.Some? && filter.value.count > quant then Failure(TooManyKept)
    else Success(DieGroup(quant, sides, filter))
  }

  /** What the random source promises: one outcome in [1, sides] per die. */
  predicate Outcomes(g: DieGroup, draws: seq<int>) {
    |draws| == g.quant && forall k :: 0 <= k < |draws| ==> 1 <= draws[k] <= g.sides
  }

  /** The total `roll` computes from the given outcomes: `sum(sorted(draws)[low:high])`. */
  function KeptSum(g: DieGroup, draws: seq<int>): int
    requires g.Valid() && |draws| == g.quant
  {
    var (lo, hi) := g.RollSlice();
    Sum(Sort(draws)[lo..hi])
  }

  /** `fast_roll(quant, sides, low, high)`: sorts the outcomes in place and sums a slice. */
  method FastRoll(quant: int, sides: int, low: int, high: int, draws: seq<int>) returns (total: int)
    requires |draws| == quant && 0 <= low <= high <= quant
    ensures total == Sum(Sort(draws)[low..high])
  {
    var numbers := new int[|draws|](k requires 0 <= k < |draws| => draws[k]);
    assert numbers[..] == draws;
    SortInPlace(numbers);
    total := Sum(numbers[low..high]);
  }

  /** `NumberofDice.roll()` */
  method Roll(g: DieGroup, draws: seq<int>) returns (total: int)
    requires g.Valid() && |draws| == g.quant
    ensures total == KeptSum(g, draws)
  {
    var (lo, hi) := g.RollSlice();
    total := FastRoll(g.quant, g.sides, lo, hi, draws);
  }

  /** `NumberofDice.verbose_roll()`: the kept total and the outcomes it shows,
      sorted when a keep filter is present. It takes the kept dice from the
      end or the front of the sorted list rather than by `low:high`, and still
      agrees with `roll` on every input. */
  method VerboseRoll(g: DieGroup, draws: seq<int>) returns (total: int, shown: seq<int>)
    requires g.Valid() && |draws| == g.quant
    ensures total == KeptSum(g, draws)
    ensures shown == if g.filter.None? then draws else Sort(draws)
  {
    if g.filter.None? {
      total, shown := Sum(draws), draws;
      UnfilteredSum(g, draws);
      return;
    }
    var numbers := new int[|draws|](k requires 0 <= k < |draws| => draws[k]);
    assert numbers[..] == draws;
    SortInPlace(numbers);
    var sorted := numbers[..];
    var filtered;
    if g.KeepHigh() < g.quant {
      filtered := sorted[|sorted| - g.KeepHigh()..];
    } else {
      filtered := sorted[..g.KeepLow()];
    }
    FilteredSlice(g, sorted);
    total, shown := Sum(filtered), sorted;
  }

  /** Without a filter every die counts, in any order. */
  lemma UnfilteredSum(g: DieGroup, draws: seq<int>)
    requires g.Valid() && |draws| == g.quant && g.filter.None?
    ensures KeptSum(g, draws) == Sum(draws)
  {
    var sorted := Sort(draws);
    SumPermutation(draws, sorted);
    assert sorted[0..g.quant] == sorted;
  }

  /** The dice `verbose_roll` keeps are the slice `roll` sums. */
  lemma FilteredSlice(g: DieGroup, s: seq<int>)
    requires g.Valid() && |s| == g.quant && g.filter.Some?
    ensures var (lo, hi) := g.RollSlice();
      (if g.KeepHigh() < g.quant then s[|s| - g.KeepHigh()..] else s[..g.KeepLow()]) == s[lo..hi]
  {
  }

  /** The sorted outcomes take their values from the outcomes. */
  lemma SortedOutcomes(g: DieGroup, draws: seq<int>)
    requires Outcomes(g, draws)
    ensures forall k :: 0 <= k < |Sort(draws)| ==> 1 <= Sort(draws)[k] <= g.sides
  {
    var s := Sort(draws);
    forall k | 0 <= k < |s|
      ensures 1 <= s[k] <= g.sides
    {
      assert s[k] in multiset(draws);
      var m :| 0 <= m < |draws| && draws[m] == s[k];
    }
  }

  /** A roll adds up exactly the kept dice, so it lies in [low, high];
      except for `NdS^N`, see `KeepAllHighestRollsZero`. */
  lemma KeptSumBounds(g: DieGroup, draws: seq<int>)
    requires g.Valid() && Outcomes(g, draws) && !g.KeepsAllHighest()
    ensures g.Low() <= KeptSum(g, draws) <= g.High()
  {
    var (lo, hi) := g.RollSlice();
    var s := Sort(draws);
    SortedOutcomes(g, draws);
    var kept := s[lo..hi];
    assert |kept| == g.KeptCount();
    SumBounds(kept, 1, g.sides);
  }

  /** `NdS^N` takes the slice [0:0] and rolls 0, although its `low` is N. */
  lemma KeepAllHighestRollsZero(g: DieGroup, draws: seq<int>)
    requires g.Valid() && g.KeepsAllHighest() && |draws| == g.quant
    ensures KeptSum(g, draws) == 0 < g.Low()
  {
  }

  /** `get_ev()` picks keep-best for `^K` with K below the quantity, keep-worst
      for `vK`, and the closed form N(S+1)/2 otherwise, `NdS^N` included. */
  lemma EvDispatch(g: DieGroup)
    requires g.Valid()
    ensures match g.filter
      case None => g.Ev() == DiceEv.PlainEv(g.quant, g.sides)
      case Some(KeepFilter(KeepLowest, k)) => g.Ev() == DiceEv.KeepWorstEv(g.quant, g.sides, k)
      case Some(KeepFilter(KeepHighest, k)) =>
        g.Ev() == if k < g.quant then DiceEv.KeepBestEv(g.quant, g.sides, k) else DiceEv.PlainEv(g.quant, g.sides)
  {
  }
}
