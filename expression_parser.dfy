/** `Expression.from_str` in src/salamander/dicemath.py: strip, then read a
    value or an operator, alternately, until the text is used up. */
module ExpressionParser {
  import opened Wrappers
  import opened Text
  import opened DiceGroups
  import opened DiceScanner
  import opened Expressions

  /** What `from_str` ends with when the text left is expr and the
      components read so far are cs. A scanner failure, `TooManyKept`
      included, is reported as `ExpectedNumberOrDie`; an unexpected
      character where an operator belongs as `IncompleteExpression`; and an
      empty text only when nothing was read at all. */
  function ParseFrom(expr: string, cs: seq<Component>): Result<seq<Component>, DiceError>
    decreases |expr|, 1
  {
    var e := Strip(expr);
    if e == [] then
      if |cs| == 0 then Failure(IncompleteExpression(Show(cs))) else Success(cs)
    else if |cs| % 2 == 1 then ReadOperator(e, cs)
    else ReadTerm(e, cs)
  }

  /** An operator is expected: `+` or `-` at the head of the stripped text e. */
  function ReadOperator(e: string, cs: seq<Component>): Result<seq<Component>, DiceError>
    requires e != []
    decreases |e|, 0
  {
    if e[0] == '+' then ParseFrom(e[1..], cs + [Operator(Add)])
    else if e[0] == '-' then ParseFrom(e[1..], cs + [Operator(Sub)])
    else Failure(IncompleteExpression(Show(cs)))
  }

  /** A value is expected: a term scanned from the head of the stripped text e. */
  function ReadTerm(e: string, cs: seq<Component>): Result<seq<Component>, DiceError>
    decreases |e|, 0
  {
    match TryDieOrInt(e)
    case Failure(_) => Failure(ExpectedNumberOrDie(Show(cs)))
    case Success((t, rest)) =>
      if t.Dice? && DiceCount(cs) + t.g.quant > 1000 then Failure(TooManyDice)
      else ParseFrom(rest, cs + [Value(t)])
  }

  /** The components `from_str(expr)` builds, or the error it raises. */
  function Parse(expr: string): Result<seq<Component>, DiceError> {
    ParseFrom(expr, [])
  }

  /** `Expression.from_str(expr)` */
  method FromStr(input: string) returns (r: Result<Expression, DiceError>)
    ensures r.Failure? <==> Parse(input).Failure?
    ensures r.Failure? ==> r.error == Parse(input).error
    ensures r.Success? ==> fresh(r.value) && r.value.Valid() && r.value.components == Parse(input).value
  {
    var c := 0;
    var obj := new Expression();
    var expr := input;
    while true
      invariant fresh(obj) && obj.Valid() && c == |obj.components|
      invariant ParseFrom(expr, obj.components) == Parse(input)
      decreases |expr|
    {
      var e := Strip(expr);
      if e == [] {
        break;
      }
      if c % 2 == 1 {
        if e[0] == '+' || e[0] == '-' {
          var added := obj.AddOperator(if e[0] == '+' then Add else Sub);
          expr := e[1..];
        } else {
          return Failure(IncompleteExpression(Show(obj.components)));
        }
      } else {
        var scanned := TryDieOrInt(e);
        if scanned.Failure? {
          return Failure(ExpectedNumberOrDie(Show(obj.components)));
        }
        var (part, rest) := scanned.value;
        var added := obj.AddDice(part);
        if added.Failure? {
          return Failure(added.error);
        }
        expr := rest;
      }
      c := c + 1;
    }
    if !(c % 2 == 1 || c != 0) {
      return Failure(IncompleteExpression(Show(obj.components)));
    }
    return Success(obj);
  }

  /** `from_str` never raises `ExpectedOperator`, `TooManyKept` or a bare
      `DiceError`: a non-operator after a value is an incomplete expression,
      and a failed scan is an expected number or die. */
  lemma {:induction false} ParseErrors(expr: string, cs: seq<Component>)
    ensures var r := ParseFrom(expr, cs);
      r.Failure? ==> r.error.ExpectedNumberOrDie? || r.error.IncompleteExpression? || r.error == TooManyDice
    decreases |expr|, 1
  {
    var e := Strip(expr);
    if e != [] {
      if |cs| % 2 == 1 {
        if e[0] == '+' {
          ParseErrors(e[1..], cs + [Operator(Add)]);
        } else if e[0] == '-' {
          ParseErrors(e[1..], cs + [Operator(Sub)]);
        }
      } else {
        TermErrors(e, cs);
      }
    }
  }

  /** `ParseErrors` where a value is expected. */
  lemma {:induction false} TermErrors(e: string, cs: seq<Component>)
    ensures var r := ReadTerm(e, cs);
      r.Failure? ==> r.error.ExpectedNumberOrDie? || r.error.IncompleteExpression? || r.error == TooManyDice
    decreases |e|, 0
  {
    if TryDieOrInt(e).Success? {
      var (t, rest) := TryDieOrInt(e).value;
      ParseErrors(rest, cs + [Value(t)]);
    }
  }

  /** Blank text has nothing to read: `from_str` raises `IncompleteExpression("")`. */
  lemma ParseBlank(expr: string)
    requires forall k :: 0 <= k < |expr| ==> IsSpace(expr[k])
    ensures Parse(expr) == Failure(IncompleteExpression(""))
  {
    assert Strip(expr) == [] by {
      StripLeadingBlank(expr);
    }
  }

  /** The components read so far, extended by one that keeps alternation. */
  lemma Extend(cs: seq<Component>, c: Component)
    requires Alternates(cs) && GroupsValid(cs)
    requires c.Operator? <==> |cs| % 2 == 1
    requires c.Value? ==> ValidTerm(c.t)
    ensures Alternates(cs + [c]) && GroupsValid(cs + [c])
    ensures DiceCount(cs + [c]) == DiceCount(cs) + Quantity(c)
    ensures (cs + [c])[..|cs|] == cs
  {
    DiceCountAppend(cs, c);
    AlternatesAppend(cs, c);
    GroupsValidAppend(cs, c);
  }

  lemma AlternatesAppend(cs: seq<Component>, c: Component)
    requires Alternates(cs) && (c.Operator? <==> |cs| % 2 == 1)
    ensures Alternates(cs + [c])
  {
    var r := cs + [c];
    forall i | 0 <= i < |r| ensures r[i].Operator? <==> i % 2 == 1 {
      if i < |cs| {
        assert r[i] == cs[i];
      }
    }
  }

  lemma GroupsValidAppend(cs: seq<Component>, c: Component)
    requires GroupsValid(cs) && (c.Value? ==> ValidTerm(c.t))
    ensures GroupsValid(cs + [c])
  {
    var r := cs + [c];
    forall i | 0 <= i < |r| ensures r[i].Value? ==> ValidTerm(r[i].t) {
      if i < |cs| {
        assert r[i] == cs[i];
      }
    }
  }

  /** What `from_str` returns after reading cs: a non-empty, alternating
      list within the dice budget that extends cs by terms in scanner range. */
  predicate Built(cs: seq<Component>, r: seq<Component>) {
    |r| > 0 && |cs| <= |r| && r[..|cs|] == cs
    && Alternates(r) && GroupsValid(r) && DiceCount(r) <= 1000
    && forall i :: |cs| <= i < |r| ==> (r[i].Value? ==> InRange(r[i].t))
  }

  /** What `from_str` builds is always a valid `Expression`. */
  lemma {:induction false} ParseWellFormed(expr: string, cs: seq<Component>)
    requires Alternates(cs) && GroupsValid(cs) && DiceCount(cs) <= 1000
    ensures ParseFrom(expr, cs).Success? ==> Built(cs, ParseFrom(expr, cs).value)
    decreases |expr|, 2
  {
    var e := Strip(expr);
    if e == [] {
      assert cs[..|cs|] == cs;
    } else if |cs| % 2 == 1 {
      OperatorWellFormed(e, cs);
    } else {
      TermWellFormed(e, cs);
    }
  }

  /** `ParseWellFormed` where an operator is expected. */
  lemma {:induction false} OperatorWellFormed(e: string, cs: seq<Component>)
    requires e != [] && |cs| % 2 == 1
    requires Alternates(cs) && GroupsValid(cs) && DiceCount(cs) <= 1000
    ensures ReadOperator(e, cs).Success? ==> Built(cs, ReadOperator(e, cs).value)
    decreases |e|, 1
  {
    if e[0] == '+' || e[0] == '-' {
      WellFormedStep(e[1..], cs, Operator(if e[0] == '+' then Add else Sub));
    }
  }

  /** `ParseWellFormed` where a value is expected. */
  lemma {:induction false} TermWellFormed(e: string, cs: seq<Component>)
    requires |cs| % 2 == 0
    requires Alternates(cs) && GroupsValid(cs) && DiceCount(cs) <= 1000
    ensures ReadTerm(e, cs).Success? ==> Built(cs, ReadTerm(e, cs).value)
    decreases |e|, 1
  {
    if TryDieOrInt(e).Success? {
      var (t, rest) := TryDieOrInt(e).value;
      if !(t.Dice? && DiceCount(cs) + t.g.quant > 1000) {
        WellFormedStep(rest, cs, Value(t));
      }
    }
  }

  /** `ParseWellFormed` after one more component c. */
  lemma {:induction false} WellFormedStep(rest: string, cs: seq<Component>, c: Component)
    requires Alternates(cs) && GroupsValid(cs)
    requires c.Operator? <==> |cs| % 2 == 1
    requires c.Value? ==> InRange(c.t)
    requires DiceCount(cs) + Quantity(c) <= 1000
    ensures ParseFrom(rest, cs + [c]).Success? ==> Built(cs, ParseFrom(rest, cs + [c]).value)
    decreases |rest|, 3
  {
    Extend(cs, c);
    ParseWellFormed(rest, cs + [c]);
    var r := ParseFrom(rest, cs + [c]);
    if r.Success? {
      BuiltShrink(cs, c, r.value);
    }
  }

  /** A list built after cs + [c], with c in range, is built after cs. */
  lemma BuiltShrink(cs: seq<Component>, c: Component, r: seq<Component>)
    requires Built(cs + [c], r) && (c.Value? ==> InRange(c.t))
    ensures Built(cs, r)
  {
    assert r[..|cs|] == r[..|cs| + 1][..|cs|];
    assert r[|cs|] == r[..|cs| + 1][|cs|] == c;
  }

  /** The expressions `str` prints and `from_str` reads back: non-empty,
      alternating, terms in scanner range, at most 1000 dice. */
  predicate WellFormed(cs: seq<Component>) {
    |cs| > 0 && Alternates(cs) && DiceCount(cs) <= 1000
    && forall i :: 0 <= i < |cs| ==> (cs[i].Value? ==> InRange(cs[i].t))
  }

  /** `from_str(str(e))` rebuilds e, a trailing operator included. */
  lemma RoundTrip(cs: seq<Component>)
    requires WellFormed(cs)
    ensures Parse(Show(cs)) == Success(cs)
  {
    ParseSuffix(cs, 0);
    assert cs[0..] == cs && cs[..0] == [];
  }
  /** `str(e)` determines the components of a well-formed expression. */
  lemma ShowInjective(cs: seq<Component>, ds: seq<Component>)
    requires WellFormed(cs) && WellFormed(ds) && Show(cs) == Show(ds)
    ensures cs == ds
  {
    RoundTrip(cs);
    RoundTrip(ds);
  }


  /** The rest of the printed text, read after the first k components. */
  lemma {:induction false} ParseSuffix(cs: seq<Component>, k: nat)
    requires WellFormed(cs) && k < |cs|
    ensures ParseFrom(Show(cs[k..]), cs[..k]) == Success(cs)
    decreases |cs| - k, 0
  {
    var sep := Sep(cs, k);
    var e := Fmt(cs[k]) + sep;
    assert Show(cs[k..]) == e by {
      ShowCons(cs, k);
    }
    assert ParseFrom(e, cs[..k]) == ParseFrom(sep, cs[..k + 1]) by {
      if k % 2 == 1 {
        ParseOperator(cs, k);
      } else {
        ParseValue(cs, k);
      }
    }
    SepParses(cs, k);
  }

  /** What `str` prints after the k-th component. */
  function Sep(cs: seq<Component>, k: nat): string
    requires k < |cs|
  {
    if k + 1 == |cs| then "" else " " + Show(cs[k + 1..])
  }

  /** Reading on after the k-th component finishes the list. */
  lemma {:induction false} SepParses(cs: seq<Component>, k: nat)
    requires WellFormed(cs) && k < |cs|
    ensures ParseFrom(Sep(cs, k), cs[..k + 1]) == Success(cs)
    decreases |cs| - k - 1, 1
  {
    if k + 1 < |cs| {
      var tail := cs[k + 1..];
      var rest := Show(tail);
      var read := cs[..k + 1];
      assert Sep(cs, k) == " " + rest;
      assert Strip(" " + rest) == Strip(rest) by {
        assert |tail| > 0 && forall i :: 0 <= i < |tail| ==> (tail[i].Value? ==> InRange(tail[i].t));
        ShowEnds(tail);
        StripSpacePrefix(rest);
      }
      assert ParseFrom(rest, read) == Success(cs) by {
        ParseSuffix(cs, k + 1);
      }
      SameStrip(" " + rest, rest, read);
    } else {
      assert cs[..k + 1] == cs;
      ReadEnd(cs);
    }
  }

  /** `from_str` stops with the components read so far when no text is left. */
  lemma ReadEnd(cs: seq<Component>)
    requires cs != []
    ensures ParseFrom("", cs) == Success(cs)
  {
    assert Strip("") == "";
  }

  /** An operator at an odd position is read as such. */
  lemma ParseOperator(cs: seq<Component>, k: nat)
    requires WellFormed(cs) && k < |cs| && k % 2 == 1
    ensures ParseFrom(Fmt(cs[k]) + Sep(cs, k), cs[..k]) == ParseFrom(Sep(cs, k), cs[..k + 1])
  {
    var c, sep := cs[k], Sep(cs, k);
    var e := Fmt(c) + sep;
    assert c.Operator? by {
      assert Alternates(cs);
    }
    assert Strip(e) == e by {
      StripEnds(cs, k);
    }
    assert e[0] == (if c.op == Add then '+' else '-') && e[1..] == sep;
    assert cs[..k] + [c] == cs[..k + 1] by {
      PrefixSnoc(cs, k);
    }
    OperatorStep(e, cs[..k]);
  }

  /** One step of `from_str` that reads an operator from stripped text. */
  lemma OperatorStep(e: string, cs: seq<Component>)
    requires Strip(e) == e && e != [] && |cs| % 2 == 1 && (e[0] == '+' || e[0] == '-')
    ensures ParseFrom(e, cs) == ParseFrom(e[1..], cs + [Operator(if e[0] == '+' then Add else Sub)])
  {
  }

  /** A term at an even position is scanned whole and fits the dice budget. */
  lemma ParseValue(cs: seq<Component>, k: nat)
    requires WellFormed(cs) && k < |cs| && k % 2 == 0
    ensures ParseFrom(Fmt(cs[k]) + Sep(cs, k), cs[..k]) == ParseFrom(Sep(cs, k), cs[..k + 1])
  {
    var c, sep := cs[k], Sep(cs, k);
    var e := Fmt(c) + sep;
    assert c.Value? && Strip(e) == e && e != [] && TryDieOrInt(e) == Success((c.t, sep)) by {
      assert InRange(c.t);
      StripEnds(cs, k);
      assert Separates(sep);
      ScanTerm(c.t, sep);
    }
    assert !(c.t.Dice? && DiceCount(cs[..k]) + c.t.g.quant > 1000) by {
      QuantitiesNonNegative(cs);
      DiceCountPrefix(cs, k + 1);
      DiceCountAppend(cs[..k], c);
      PrefixSnoc(cs, k);
    }
    assert cs[..k] + [c] == cs[..k + 1] by {
      PrefixSnoc(cs, k);
    }
    TermStep(e, cs[..k], c.t, sep);
  }

  lemma QuantitiesNonNegative(cs: seq<Component>)
    requires WellFormed(cs)
    ensures forall i :: 0 <= i < |cs| ==> Quantity(cs[i]) >= 0
  {
  }

  lemma PrefixSnoc(cs: seq<Component>, k: nat)
    requires k < |cs|
    ensures cs[..k] + [cs[k]] == cs[..k + 1]
  {
  }

  /** One step of `from_str` that reads a term within the dice budget from stripped text. */
  lemma TermStep(e: string, cs: seq<Component>, t: Term, rest: string)
    requires Strip(e) == e && e != [] && |cs| % 2 == 0
    requires TryDieOrInt(e) == Success((t, rest))
    requires !(t.Dice? && DiceCount(cs) + t.g.quant > 1000)
    ensures ParseFrom(e, cs) == ParseFrom(rest, cs + [Value(t)])
  {
  }

  /** The text of cs[k..] is already stripped. */
  lemma StripEnds(cs: seq<Component>, k: nat)
    requires WellFormed(cs) && k < |cs|
    ensures Strip(Fmt(cs[k]) + Sep(cs, k)) == Fmt(cs[k]) + Sep(cs, k)
  {
    ShowCons(cs, k);
    ShowEnds(cs[k..]);
    StripSpacePrefix(Show(cs[k..]));
  }

  /** The printed text of cs[k..] is the k-th component, then a space and the rest. */
  lemma ShowCons(cs: seq<Component>, k: nat)
    requires k < |cs|
    ensures Show(cs[k..]) == Fmt(cs[k]) + Sep(cs, k)
  {
    assert cs[k..][1..] == cs[k + 1..];
  }

  /** Two texts that strip alike parse alike. */
  lemma SameStrip(a: string, b: string, cs: seq<Component>)
    requires Strip(a) == Strip(b)
    ensures ParseFrom(a, cs) == ParseFrom(b, cs)
  {
  }

  /** A printed expression neither starts nor ends with whitespace. */
  lemma ShowEnds(cs: seq<Component>)
    requires |cs| > 0 && forall i :: 0 <= i < |cs| ==> (cs[i].Value? ==> InRange(cs[i].t))
    ensures var s := Show(cs); s != [] && !IsSpace(s[0]) && !IsSpace(s[|s| - 1])
  {
    var first, last := cs[0], cs[|cs| - 1];
    FmtEnds(first);
    FmtEnds(last);
    ShowFirst(cs);
    ShowLast(cs);
  }

  /** The printed expression starts with the text of its first component. */
  lemma ShowFirst(cs: seq<Component>)
    requires |cs| > 0 && Fmt(cs[0]) != []
    ensures var s, f := Show(cs), Fmt(cs[0]); s != [] && s[0] == f[0]
  {
  }

  /** A printed component neither starts nor ends with whitespace. */
  lemma FmtEnds(c: Component)
    requires c.Value? ==> InRange(c.t)
    ensures var f := Fmt(c); f != [] && !IsSpace(f[0]) && !IsSpace(f[|f| - 1])
  {
    if c.Value? {
      TermTextEnds(c.t);
    }
  }

  /** The printed expression ends with the text of its last component. */
  lemma {:induction false} ShowLast(cs: seq<Component>)
    requires |cs| > 0 && Fmt(cs[|cs| - 1]) != []
    ensures var s, f := Show(cs), Fmt(cs[|cs| - 1]); s != [] && s[|s| - 1] == f[|f| - 1]
  {
    if |cs| > 1 {
      var rest := cs[1..];
      assert rest[|rest| - 1] == cs[|cs| - 1];
      ShowLast(rest);
      LastOfJoin(Fmt(cs[0]) + " ", Show(rest));
    }
  }

  lemma LastOfJoin(a: string, b: string)
    requires b != []
    ensures (a + b)[|a + b| - 1] == b[|b| - 1]
  {
  }

  /** With no negative quantities, a prefix holds no more dice than the whole. */
  lemma {:induction false} DiceCountPrefix(cs: seq<Component>, j: nat)
    requires j <= |cs|
    requires forall i :: 0 <= i < |cs| ==> Quantity(cs[i]) >= 0
    ensures DiceCount(cs[..j]) <= DiceCount(cs)
    decreases |cs|
  {
    if j < |cs| {
      var init := cs[..|cs| - 1];
      assert init[..j] == cs[..j];
      assert forall i :: 0 <= i < |init| ==> init[i] == cs[i];
      DiceCountPrefix(init, j);
      assert Quantity(cs[|cs| - 1]) >= 0;
    } else {
      assert cs[..j] == cs;
    }
  }
}
