/** The class `Expression` of src/salamander/dicemath.py: an alternating list
    of values and operators, a running count of dice, and the left-to-right
    folds that roll it and bound it. The outcomes of the dice are a
    parameter: `draws[i]` holds the outcomes of the die group at position i. */
module Expressions {
  import opened Wrappers
  import opened Text
  import opened DiceGroups
  import opened DiceScanner

  /** `operator.add` and `operator.sub`, the values of `OPS`. */
  datatype Op = Add | Sub

  /** One element of `_components`. */
  datatype Component = Value(t: Term) | Operator(op: Op)

  function Apply(op: Op, a: int, b: int): int {
    if op == Add then a + b else a - b
  }

  function ApplyReal(op: Op, a: real, b: real): real {
    if op == Add then a + b else a - b
  }

  /** `_die_or_component_fmt`: `ROPS` for operators, `str` otherwise. */
  function Fmt(c: Component): string {
    match c
    case Operator(Add) => "+"
    case Operator(Sub) => "-"
    case Value(t) => TermText(t)
  }

  /** `str(expression)`: the components joined by single spaces. */
  function Show(cs: seq<Component>): string {
    if cs == [] then ""
    else if |cs| == 1 then Fmt(cs[0])
    else Fmt(cs[0]) + " " + Show(cs[1..])
  }

  /** Values at even positions, operators at odd ones. */
  predicate Alternates(cs: seq<Component>) {
    forall i :: 0 <= i < |cs| ==> (cs[i].Operator? <==> i % 2 == 1)
  }

  function Quantity(c: Component): int {
    if c.Value? && c.t.Dice? then c.t.g.quant else 0
  }

  /** The sum of the quantities of the die groups. */
  function DiceCount(cs: seq<Component>): int {
    if cs == [] then 0 else DiceCount(cs[..|cs| - 1]) + Quantity(cs[|cs| - 1])
  }

  predicate ValidTerm(t: Term) {
    t.Dice? ==> t.g.Valid()
  }

  predicate GroupsValid(cs: seq<Component>) {
    forall i :: 0 <= i < |cs| ==> (cs[i].Value? ==> ValidTerm(cs[i].t))
  }

  /** The state of the folds: `total` and `next_operator`. */
  datatype Acc = Acc(total: int, next: Op)

  /** One iteration of the folds: an operator becomes the next operator,
      a value v is combined with the total by it. */
  function Step(a: Acc, c: Component, v: int): Acc {
    match c
    case Operator(op) => Acc(a.total, op)
    case Value(_) => Acc(Apply(a.next, a.total, v), a.next)
  }

  /** What `get_min` adds or subtracts for a value: `high` under `-`, `low` otherwise. */
  function MinValue(c: Component, next: Op): int {
    match c
    case Operator(_) => 0
    case Value(Literal(n)) => n
    case Value(Dice(g)) => if next == Sub then g.High() else g.Low()
  }

  /** What `get_max` adds or subtracts for a value: `low` under `-`, `high` otherwise. */
  function MaxValue(c: Component, next: Op): int {
    match c
    case Operator(_) => 0
    case Value(Literal(n)) => n
    case Value(Dice(g)) => if next == Sub then g.Low() else g.High()
  }

  /** The final state of the `get_min` loop over cs. */
  function MinFold(cs: seq<Component>): Acc {
    if cs == [] then Acc(0, Add)
    else
      var a := MinFold(cs[..|cs| - 1]);
      Step(a, cs[|cs| - 1], MinValue(cs[|cs| - 1], a.next))
  }

  /** The final state of the `get_max` loop over cs. */
  function MaxFold(cs: seq<Component>): Acc {
    if cs == [] then Acc(0, Add)
    else
      var a := MaxFold(cs[..|cs| - 1]);
      Step(a, cs[|cs| - 1], MaxValue(cs[|cs| - 1], a.next))
  }

  /** Outcomes for every die group of cs, one list per position. */
  predicate DrawsFit(cs: seq<Component>, draws: seq<seq<int>>) {
    |draws| == |cs| && forall i :: 0 <= i < |cs| ==> |draws[i]| == Quantity(cs[i])
  }

  /** Outcomes the random source can produce: each in [1, sides]. */
  predicate DrawsInRange(cs: seq<Component>, draws: seq<seq<int>>)
    requires DrawsFit(cs, draws)
  {
    forall i :: 0 <= i < |cs| ==> (cs[i].Value? && cs[i].t.Dice? ==> Outcomes(cs[i].t.g, draws[i]))
  }

  /** What `roll` adds or subtracts for a value: a die group's kept sum. */
  function RollValue(c: Component, d: seq<int>): int
    requires c.Value? ==> ValidTerm(c.t)
    requires |d| == Quantity(c)
  {
    match c
    case Operator(_) => 0
    case Value(Literal(n)) => n
    case Value(Dice(g)) => KeptSum(g, d)
  }

  /** The final state of the `roll` loop over cs with the given outcomes. */
  function RollFold(cs: seq<Component>, draws: seq<seq<int>>): Acc
    requires GroupsValid(cs) && DrawsFit(cs, draws)
  {
    if cs == [] then Acc(0, Add)
    else
      var n := |cs| - 1;
      var a := RollFold(cs[..n], draws[..n]);
      Step(a, cs[n], RollValue(cs[n], draws[n]))
  }

  /** The state of the `get_ev` loop, over reals. */
  datatype RealAcc = RealAcc(total: real, next: Op)

  function EvValue(c: Component): real
    requires c.Value? ==> ValidTerm(c.t)
  {
    match c
    case Operator(_) => 0.0
    case Value(Literal(n)) => n as real
    case Value(Dice(g)) => g.Ev()
  }

  /** The final state of the `get_ev` loop over cs. */
  function EvFold(cs: seq<Component>): RealAcc
    requires GroupsValid(cs)
  {
    if cs == [] then RealAcc(0.0, Add)
    else
      var a := EvFold(cs[..|cs| - 1]);
      match cs[|cs| - 1]
      case Operator(op) => RealAcc(a.total, op)
      case Value(_) => RealAcc(ApplyReal(a.next, a.total, EvValue(cs[|cs| - 1])), a.next)
  }

  /** `Expression`: the components and the number of dice in them. */
  class Expression {
    var components: seq<Component>
    var numDice: int

    /** What `add_dice` and `add_operator` keep: alternation, the counter
        equal to the dice in the list, and at most 1000 of them. */
    predicate Valid()
      reads this
    {
      Alternates(components) && GroupsValid(components)
      && numDice == DiceCount(components) && numDice <= 1000
    }

    constructor ()
      ensures Valid() && components == [] && numDice == 0
    {
      components, numDice := [], 0;
    }

    /** `add_dice(die)` */
    method AddDice(t: Term) returns (r: Result<(), DiceError>)
      requires Valid() && ValidTerm(t)
      modifies this
      ensures Valid()
      ensures |old(components)| % 2 == 1 ==> r == Failure(ExpectedOperator(Show(old(components))))
      ensures |old(components)| % 2 == 0 && t.Dice? && old(numDice) + t.g.quant > 1000 ==> r == Failure(TooManyDice)
      ensures |old(components)| % 2 == 0 && !(t.Dice? && old(numDice) + t.g.quant > 1000) ==> r.Success?
      ensures r.Success? ==> components == old(components) + [Value(t)]
      ensures r.Failure? ==> components == old(components) && numDice == old(numDice)
    {
      if |components| % 2 == 1 {
        return Failure(ExpectedOperator(Show(components)));
      }
      if t.Dice? {
        var n := numDice + t.g.quant;
        if n > 1000 {
          return Failure(TooManyDice);
        }
        numDice := n;
      }
      DiceCountAppend(components, Value(t));
      components := components + [Value(t)];
      return Success(());
    }

    /** `add_operator(op)` */
    method AddOperator(op: Op) returns (r: Result<(), DiceError>)
      requires Valid()
      modifies this
      ensures Valid() && numDice == old(numDice)
      ensures r.Failure? <==> |old(components)| % 2 == 0
      ensures r.Failure? ==> r.error == ExpectedNumberOrDie(Show(old(components))) && components == old(components)
      ensures r.Success? ==> components == old(components) + [Operator(op)]
    {
      if |components| % 2 == 0 {
        return Failure(ExpectedNumberOrDie(Show(components)));
      }
      DiceCountAppend(components, Operator(op));
      components := components + [Operator(op)];
      return Success(());
    }

    /** `get_min()` */
    method GetMin() returns (r: Result<int, DiceError>)
      requires Valid()
      ensures r == if |components| % 2 == 0 then Failure(IncompleteExpression(Show(components)))
                   else Success(MinFold(components).total)
    {
      if |components| % 2 == 0 {
        return Failure(IncompleteExpression(Show(components)));
      }
      var total, next := 0, Add;
      for i := 0 to |components|
        invariant MinFold(components[..i]) == Acc(total, next)
      {
        assert components[..i + 1][..i] == components[..i];
        match components[i]
        case Value(Literal(n)) =>
          total := Apply(next, total, n);
        case Value(Dice(g)) =>
          var m := if next == Sub then g.High() else g.Low();
          total := Apply(next, total, m);
        case Operator(op) =>
          next := op;
      }
      assert components[..|components|] == components;
      return Success(total);
    }

    /** `get_max()` */
    method GetMax() returns (r: Result<int, DiceError>)
      requires Valid()
      ensures r == if |components| % 2 == 0 then Failure(IncompleteExpression(Show(components)))
                   else Success(MaxFold(components).total)
    {
      if |components| % 2 == 0 {
        return Failure(IncompleteExpression(Show(components)));
      }
      var total, next := 0, Add;
      for i := 0 to |components|
        invariant MaxFold(components[..i]) == Acc(total, next)
      {
        assert components[..i + 1][..i] == components[..i];
        match components[i]
        case Value(Literal(n)) =>
          total := Apply(next, total, n);
        case Value(Dice(g)) =>
          var m := if next == Sub then g.Low() else g.High();
          total := Apply(next, total, m);
        case Operator(op) =>
          next := op;
      }
      assert components[..|components|] == components;
      return Success(total);
    }

    /** `roll()`, with `draws[i]` the outcomes of the die group at position i. */
    method Roll(draws: seq<seq<int>>) returns (r: Result<int, DiceError>)
      requires Valid() && DrawsFit(components, draws)
      ensures r == if |components| % 2 == 0 then Failure(IncompleteExpression(Show(components)))
                   else Success(RollFold(components, draws).total)
    {
      if |components| % 2 == 0 {
        return Failure(IncompleteExpression(Show(components)));
      }
      var total, next := 0, Add;
      for i := 0 to |components|
        invariant RollFold(components[..i], draws[..i]) == Acc(total, next)
      {
        assert components[..i + 1][..i] == components[..i] && draws[..i + 1][..i] == draws[..i];
        match components[i]
        case Value(Literal(n)) =>
          total := Apply(next, total, n);
        case Value(Dice(g)) =>
          var m := DiceGroups.Roll(g, draws[i]);
          total := Apply(next, total, m);
        case Operator(op) =>
          next := op;
      }
      assert components[..|components|] == components && draws[..|draws|] == draws;
      return Success(total);
    }

    /** `get_ev()` */
    method GetEv() returns (r: Result<real, DiceError>)
      requires Valid()
      ensures r == if |components| % 2 == 0 then Failure(IncompleteExpression(Show(components)))
                   else Success(EvFold(components).total)
    {
      if |components| % 2 == 0 {
        return Failure(IncompleteExpression(Show(components)));
      }
      var total, next := 0.0, Add;
      for i := 0 to |components|
        invariant EvFold(components[..i]) == RealAcc(total, next)
      {
        assert components[..i + 1][..i] == components[..i];
        match components[i]
        case Value(Literal(n)) =>
          total := ApplyReal(next, total, n as real);
        case Value(Dice(g)) =>
          total := ApplyReal(next, total, g.Ev());
        case Operator(op) =>
          next := op;
      }
      assert components[..|components|] == components;
      return Success(total);
    }
  }

  lemma DiceCountAppend(cs: seq<Component>, c: Component)
    ensures DiceCount(cs + [c]) == DiceCount(cs) + Quantity(c)
  {
    assert (cs + [c])[..|cs|] == cs;
  }

  /** For valid groups the minimum never exceeds the maximum: a subtracted
      group takes `high` in the minimum and `low` in the maximum, and
      `low <= high`. Both folds also agree on the next operator. */
  lemma {:induction false} MinLeMax(cs: seq<Component>)
    requires GroupsValid(cs)
    ensures MinFold(cs).total <= MaxFold(cs).total
    ensures MinFold(cs).next == MaxFold(cs).next
  {
    if cs != [] {
      var init := cs[..|cs| - 1];
      assert GroupsValid(init) by {
        forall i | 0 <= i < |init| ensures init[i].Value? ==> ValidTerm(init[i].t) {
          assert init[i] == cs[i];
        }
      }
      MinLeMax(init);
      var c := cs[|cs| - 1];
      if c.Value? && c.t.Dice? {
        var g := c.t.g;
        assert g.Valid();
        LowLeHigh(g);
      }
    }
  }

  lemma LowLeHigh(g: DieGroup)
    requires g.Valid()
    ensures 1 <= g.Low() <= g.High()
  {
    var k := g.KeptCount();
    assert k * 1 <= k * g.sides;
  }

  /** A roll of valid outcomes lies between the minimum and the maximum,
      provided no group keeps the N highest of N dice. */
  lemma {:induction false} RollWithinBounds(cs: seq<Component>, draws: seq<seq<int>>)
    requires GroupsValid(cs) && DrawsFit(cs, draws) && DrawsInRange(cs, draws)
    requires forall i :: 0 <= i < |cs| ==> !(cs[i].Value? && cs[i].t.Dice? && cs[i].t.g.KeepsAllHighest())
    ensures MinFold(cs).total <= RollFold(cs, draws).total <= MaxFold(cs).total
    ensures MinFold(cs).next == RollFold(cs, draws).next == MaxFold(cs).next
  {
    if cs != [] {
      var n := |cs| - 1;
      var init, dinit := cs[..n], draws[..n];
      assert GroupsValid(init) && DrawsFit(init, dinit) && DrawsInRange(init, dinit) by {
        forall i | 0 <= i < n ensures init[i] == cs[i] && dinit[i] == draws[i] {
        }
      }
      forall i | 0 <= i < n
        ensures !(init[i].Value? && init[i].t.Dice? && init[i].t.g.KeepsAllHighest())
      {
        assert init[i] == cs[i];
      }
      RollWithinBounds(init, dinit);
      var c := cs[n];
      if c.Value? && c.t.Dice? {
        assert Outcomes(c.t.g, draws[n]);
        KeptSumBounds(c.t.g, draws[n]);
      }
    }
  }

  /** The exception: an expression of one group `NdS^N` rolls 0 on every
      outcome and so falls below its minimum N. */
  lemma KeepAllHighestBelowMin(g: DieGroup, d: seq<int>)
    requires g.Valid() && g.KeepsAllHighest() && |d| == g.quant
    ensures var cs := [Value(Dice(g))];
      RollFold(cs, [d]).total == 0 < g.quant == MinFold(cs).total
  {
    KeepAllHighestRollsZero(g, d);
    var cs := [Value(Dice(g))];
    assert cs[..0] == [] && [d][..0] == [];
  }

  /** `_group_by_dice(components)`: splits the list in front of every die
      group except one at the very start. */
  method GroupByDice(cs: seq<Component>) returns (groups: seq<seq<Component>>)
    ensures Flatten(groups) == cs
    ensures |groups| >= 1
    ensures cs != [] ==> forall i :: 0 <= i < |groups| ==> groups[i] != []
    ensures forall i :: 1 <= i < |groups| ==> groups[i] != [] && IsDie(groups[i][0])
    ensures forall i, j :: 0 <= i < |groups| && 0 < j < |groups[i]| ==> !IsDie(groups[i][j])
  {
    var start := 0;
    groups := [];
    for idx := 0 to |cs|
      invariant 0 <= start <= idx
      invariant Flatten(groups) == cs[..start]
      invariant start > 0 ==> start < |cs| && IsDie(cs[start])
      invariant forall j :: start < j < idx ==> !IsDie(cs[j])
      invariant forall i :: 0 <= i < |groups| ==> groups[i] != []
      invariant forall i :: 1 <= i < |groups| ==> IsDie(groups[i][0])
      invariant forall i, j :: 0 <= i < |groups| && 0 < j < |groups[i]| ==> !IsDie(groups[i][j])
      invariant groups == [] <==> start == 0
    {
      if IsDie(cs[idx]) {
        if start != idx {
          FlattenAppend(groups, cs[start..idx]);
          assert cs[..start] + cs[start..idx] == cs[..idx];
          groups := groups + [cs[start..idx]];
        }
        start := idx;
      }
    }
    FlattenAppend(groups, cs[start..]);
    assert cs[..start] + cs[start..] == cs;
    groups := groups + [cs[start..]];
  }

  predicate IsDie(c: Component) {
    c.Value? && c.t.Dice?
  }

  /** The groups concatenated. */
  function Flatten(groups: seq<seq<Component>>): seq<Component> {
    if groups == [] then [] else Flatten(groups[..|groups| - 1]) + groups[|groups| - 1]
  }

  lemma FlattenAppend(groups: seq<seq<Component>>, g: seq<Component>)
    ensures Flatten(groups + [g]) == Flatten(groups) + g
  {
    assert (groups + [g])[..|groups|] == groups;
  }
}
