/** The prefix scanner `_try_die_or_int` of src/salamander/dicemath.py and
    the two regular expressions it tries: `DIE_COMPONENT_RE` first, then a
    bare integer `^[1-9][0-9]{0,2}`. The regular expressions are written out
    as explicit scans of the head of the string. */
module DiceScanner {
  import opened Wrappers
  import opened Text
  import opened DiceGroups

  /** What `add_dice` accepts: a bare integer or a die group. */
  datatype Term = Literal(n: int) | Dice(g: DieGroup)

  /** `str(term)` */
  function TermText(t: Term): string {
    match t
    case Literal(n) => IntToString(n)
    case Dice(g) => g.ToString()
  }

  /** The terms the scanner can produce: integers 1-999 and die groups of
      1-99 dice with 1-100 sides and a keep count of 1-999 that does not
      exceed the quantity. */
  predicate InRange(t: Term) {
    match t
    case Literal(n) => 1 <= n <= 999
    case Dice(g) => g.Valid() && g.quant <= 99 && g.sides <= 100 && (g.filter.Some? ==> g.filter.value.count <= 999)
  }

  predicate IsLead(c: char) { '1' <= c <= '9' }

  /** The number of leading digits of s, at most max: `[0-9]{0,max}`, greedy. */
  function DigitRun(s: string, max: nat): (k: nat)
    ensures k <= max && k <= |s|
    ensures AllDigits(s[..k])
    ensures k < max && k < |s| ==> !IsDigit(s[k])
  {
    if max == 0 || s == [] || !IsDigit(s[0]) then 0
    else
      var k' := DigitRun(s[1..], max - 1);
      assert s[..k' + 1] == [s[0]] + s[1..][..k'];
      1 + k'
  }

  /** The length of the longest prefix matching `[1-9][0-9]{0,max-1}`, or 0. */
  function LeadRun(s: string, max: nat): (k: nat)
    requires max >= 1
    ensures k <= max && k <= |s|
    ensures k > 0 <==> s != [] && IsLead(s[0])
    ensures k > 0 ==> Canonical(s[..k]) && s[0] != '0'
    ensures 0 < k < max && k < |s| ==> !IsDigit(s[k])
  {
    if s != [] && IsLead(s[0]) then
      var k' := DigitRun(s[1..], max - 1);
      assert s[..k' + 1] == [s[0]] + s[1..][..k'];
      1 + k'
    else 0
  }

  /** The fields of a `DIE_COMPONENT_RE` match and the text after it. */
  datatype DieMatch = DieMatch(quant: int, sides: int, filter: Option<KeepFilter>, rest: string)

  /** The sides field: `100` is tried before `[1-9][0-9]?`. */
  function SidesRun(t: string): (w: nat)
    ensures w <= 3 && w <= |t|
    ensures w > 0 ==> Canonical(t[..w]) && t[0] != '0' && 1 <= DigitsValue(t[..w]) <= 100
    ensures w > 0 ==> IntToString(DigitsValue(t[..w])) == t[..w]
  {
    if |t| >= 3 && t[..3] == "100" then
      assert "100"[..2] == "10" && "10"[..1] == "1" && "1"[..0] == "";
      assert IntToString(100) == "100";
      3
    else
      var w := LeadRun(t, 2);
      if w > 0 then NumeralValue(t[..w], 2); w else w
  }

  /** The sides field is present iff t starts with 1-9; `100` is taken
      whenever it is there, and it is the only three-digit field. */
  lemma SidesRunShape(t: string)
    ensures SidesRun(t) > 0 <==> t != [] && IsLead(t[0])
    ensures |t| >= 3 && t[..3] == "100" ==> SidesRun(t) == 3
    ensures SidesRun(t) == 3 ==> t[..3] == "100"
  {
    if |t| >= 3 && t[..3] == "100" {
      assert t[0] == '1';
    }
  }

  /** The optional `(?P<kd>[v^])(?P<kdquant>[1-9][0-9]{0,2})` group: taken
      when a non-zero digit follows the `v` or `^`. */
  function MatchKeep(u: string): (r: (Option<KeepFilter>, string))
    ensures u == KeepText(r.0) + r.1
    ensures r.0.Some? ==> 1 <= r.0.value.count <= 999
  {
    var k := if u != [] && (u[0] == 'v' || u[0] == '^') then LeadRun(u[1..], 3) else 0;
    if k == 0 then (None, u)
    else
      var digits := u[1..][..k];
      NumeralValue(digits, 3);
      assert u == [u[0]] + digits + u[k + 1..];
      (Some(KeepFilter(if u[0] == 'v' then KeepLowest else KeepHighest, DigitsValue(digits))), u[k + 1..])
  }

  /** `DIE_COMPONENT_RE.search(s)`. Taking the longest quantity is what the
      regular expression does too: a shorter one is followed by a digit, not
      by `d`. */
  function MatchDie(s: string): (r: Option<DieMatch>)
    ensures r.Some? ==> var m := r.value;
      1 <= m.quant <= 99 && 1 <= m.sides <= 100
      && (m.filter.Some? ==> 1 <= m.filter.value.count <= 999)
      && s == IntToString(m.quant) + "d" + IntToString(m.sides) + KeepText(m.filter) + m.rest
  {
    var q := LeadRun(s, 2);
    if q == 0 || q == |s| || s[q] != 'd' then None
    else
      var t := s[q + 1..];
      var w := SidesRun(t);
      if w == 0 then None
      else
        var keep := MatchKeep(t[w..]);
        NumeralValue(s[..q], 2);
        DieText(s, s[..q], t, t[..w], t[w..], KeepText(keep.0), keep.1);
        Some(DieMatch(DigitsValue(s[..q]), DigitsValue(t[..w]), keep.0, keep.1))
  }

  /** Reassembles a die match from its pieces. */
  lemma DieText(s: string, qs: string, t: string, ss: string, u: string, kd: string, rest: string)
    requires |qs| < |s| && s[..|qs|] == qs && s[|qs|] == 'd' && t == s[|qs| + 1..]
    requires |ss| <= |t| && ss == t[..|ss|] && u == t[|ss|..] && u == kd + rest
    ensures s == qs + "d" + ss + kd + rest
  {
    assert t == ss + u;
    assert s == s[..|qs|] + [s[|qs|]] + s[|qs| + 1..];
  }

  /** The value of a numeral of at most `len` digits without a leading zero. */
  lemma NumeralValue(s: string, len: nat)
    requires Canonical(s) && s[0] != '0' && |s| <= len
    ensures 1 <= DigitsValue(s) < Pow10(len)
    ensures NatToString(DigitsValue(s)) == s && IntToString(DigitsValue(s)) == s
  {
    DigitsValueBounds(s);
    Pow10Monotone(|s|, len);
    CanonicalRoundTrip(s);
  }

  /** `_try_die_or_int(s)`: a die group if the die pattern matches (failing
      with `TooManyKept` when the keep count exceeds the quantity), else an
      integer of one to three digits, else a bare `DiceError`. */
  function TryDieOrInt(s: string): (r: Result<(Term, string), DiceError>)
    ensures r.Success? ==> s == TermText(r.value.0) + r.value.1 && InRange(r.value.0)
    ensures r.Success? ==> |r.value.1| < |s|
    ensures r.Failure? ==> r.error == NoMatch || r.error == TooManyKept
    ensures r == Failure(NoMatch) <==> s == [] || !IsLead(s[0])
    ensures MatchDie(s).Some? ==> r.Failure? || r.value.0.Dice?
    ensures r == Failure(TooManyKept) <==>
      MatchDie(s).Some? && MatchDie(s).value.filter.Some? && MatchDie(s).value.filter.value.count > MatchDie(s).value.quant
  {
    match MatchDie(s)
    case Some(m) =>
      var g :- MakeDieGroup(m.quant, m.sides, m.filter);
      Success((Dice(g), m.rest))
    case None =>
      var k := LeadRun(s, 3);
      if k == 0 then Failure(NoMatch)
      else
        NumeralValue(s[..k], 3);
        assert s == s[..k] + s[k..];
        Success((Literal(DigitsValue(s[..k])), s[k..]))
  }

  /** The sides pattern is greedy and tries `100` first: `3d1000` is three
      hundred-sided dice followed by the text `0`. */
  lemma ScanGreedySides()
    ensures TryDieOrInt("3d1000") == Success((Dice(DieGroup(3, 100, None)), "0"))
  {
    HundredSides();
    FieldsScanned("3", "1000", 3);
    DieScan("3d1000", DieMatch(3, 100, None, "0"));
  }

  /** `3d6v5` matches the die pattern, and keeping five of three dice fails. */
  lemma ScanTooManyKept()
    ensures TryDieOrInt("3d6v5") == Failure(TooManyKept)
  {
    KeepFiveLowest();
    FieldsScanned("3", "6v5", 1);
    DieScan("3d6v5", DieMatch(3, 6, Some(KeepFilter(KeepLowest, 5)), ""));
  }

  /** What `_try_die_or_int` makes of a die match. */
  lemma DieScan(s: string, m: DieMatch)
    requires MatchDie(s) == Some(m)
    ensures TryDieOrInt(s)
      == if m.filter.Some? && m.filter.value.count > m.quant then Failure(TooManyKept)
         else Success((Dice(DieGroup(m.quant, m.sides, m.filter)), m.rest))
  {
  }

  /** `1000` as the sides field: `100`, then `0`. */
  lemma HundredSides()
    ensures SidesRun("1000") == 3 && "1000"[..3] == "100" && "1000"[3..] == "0"
    ensures DigitsValue("100") == 100 && MatchKeep("0") == (None, "0")
    ensures "3" + "d" + "1000" == "3d1000" && DigitsValue("3") == 3
  {
    assert "100"[..2] == "10" && "10"[..1] == "1";
  }

  /** `6v5` as the sides field: `6`, then the filter `v5`. */
  lemma KeepFiveLowest()
    ensures SidesRun("6v5") == 1 && "6v5"[..1] == "6" && "6v5"[1..] == "v5" && DigitsValue("6") == 6
    ensures MatchKeep("v5") == (Some(KeepFilter(KeepLowest, 5)), "")
    ensures "3" + "d" + "6v5" == "3d6v5" && DigitsValue("3") == 3
  {
    assert "v5"[1..] == "5" && "5"[..1] == "5" && DigitsValue("5") == 5;
  }

  /** Neither pattern matches a leading `0` or a leading `d`. */
  lemma ScanRejects()
    ensures TryDieOrInt("0") == Failure(NoMatch)
    ensures TryDieOrInt("d6") == Failure(NoMatch)
  {
    assert !IsLead("0"[0]) && !IsLead("d6"[0]);
  }

  /** The text of a term in range starts and ends with a digit. */
  lemma TermTextEnds(t: Term)
    requires InRange(t)
    ensures var w := TermText(t); w != [] && IsDigit(w[0]) && IsDigit(w[|w| - 1])
  {
    match t
    case Literal(n) =>
    case Dice(g) =>
      var qs, ss, kd := NatToString(g.quant), NatToString(g.sides), KeepText(g.filter);
      DieTextPieces(g, "");
      var w := qs + "d" + (ss + (kd + ""));
      assert w[0] == qs[0];
      match g.filter
      case None =>
        assert w[|w| - 1] == ss[|ss| - 1];
      case Some(f) =>
        var cs := NatToString(f.count);
        assert kd == [kd[0]] + cs;
        assert w[|w| - 1] == cs[|cs| - 1];
  }

  /** What may follow a term for the scanner to stop right after it. */
  predicate Separates(rest: string) {
    rest == [] || !(IsDigit(rest[0]) || rest[0] == 'd' || rest[0] == 'v' || rest[0] == '^')
  }

  /** The greedy run of a canonical numeral w is w itself when no digit follows it. */
  lemma LeadRunOfNumeral(w: string, rest: string, max: nat)
    requires max >= 1 && Canonical(w) && w[0] != '0' && |w| <= max
    requires |w| < max ==> rest == [] || !IsDigit(rest[0])
    ensures LeadRun(w + rest, max) == |w|
    ensures (w + rest)[..|w|] == w && (w + rest)[|w|..] == rest
  {
    var s := w + rest;
    assert s[..|w|] == w;
  }

  /** Every term in range followed by a separator is read back whole. */
  lemma ScanTerm(t: Term, rest: string)
    requires InRange(t) && Separates(rest)
    ensures TryDieOrInt(TermText(t) + rest) == Success((t, rest))
  {
    match t
    case Literal(n) => LiteralScanned(n, rest);
    case Dice(g) => DieScanned(g, rest);
  }

  /** The integer half of `ScanTerm`: a numeral of one to three digits is
      not mistaken for the quantity of a die group. */
  lemma LiteralScanned(n: int, rest: string)
    requires 1 <= n <= 999 && Separates(rest)
    ensures TryDieOrInt(IntToString(n) + rest) == Success((Literal(n), rest))
  {
    var w := NatToString(n);
    var s := w + rest;
    assert Canonical(w) && w[0] != '0' && |w| <= 3 && DigitsValue(w) == n by {
      NatToStringLength(n, 3);
      NatToStringValue(n);
    }
    assert LeadRun(s, 3) == |w| && s[..|w|] == w && s[|w|..] == rest by {
      LeadRunOfNumeral(w, rest, 3);
    }
    assert MatchDie(s).None? by {
      var q := LeadRun(s, 2);
      if |w| <= 2 {
        LeadRunOfNumeral(w, rest, 2);
        assert q == |w|;
      } else {
        assert q == 2 by {
          assert AllDigits(w) && s[1] == w[1];
        }
        assert s[2] == w[2];
      }
    }
  }

  /** The die-group half of `ScanTerm`. */
  lemma DieScanned(g: DieGroup, rest: string)
    requires InRange(Dice(g)) && Separates(rest)
    ensures TryDieOrInt(g.ToString() + rest) == Success((Dice(g), rest))
  {
    var qs, ss, kd := NatToString(g.quant), NatToString(g.sides), KeepText(g.filter);
    NatToStringLength(g.quant, 2);
    NatToStringValue(g.quant);
    var u := kd + rest;
    var s := g.ToString() + rest;
    DieTextPieces(g, rest);
    KeepScanned(g.filter, rest);
    SidesScanned(g.sides, u);
    FieldsScanned(qs, ss + u, |ss|);
    assert MatchDie(s) == Some(DieMatch(g.quant, g.sides, g.filter, rest));
    assert MakeDieGroup(g.quant, g.sides, g.filter) == Success(g);
  }

  /** `str(die)` tells die groups apart: two groups in range that print
      alike are the same group. */
  lemma DieTextInjective(g: DieGroup, h: DieGroup)
    requires InRange(Dice(g)) && InRange(Dice(h)) && g.ToString() == h.ToString()
    ensures g == h
  {
    DieScanned(g, "");
    DieScanned(h, "");
    assert g.ToString() + "" == h.ToString() + "";
  }

  /** The text of a die group, split into its fields. */
  lemma DieTextPieces(g: DieGroup, rest: string)
    requires g.quant >= 0 && g.sides >= 0
    ensures g.ToString() + rest
      == NatToString(g.quant) + "d" + (NatToString(g.sides) + (KeepText(g.filter) + rest))
  {
  }

  /** A quantity numeral, `d` and a text whose sides field is w long. */
  lemma FieldsScanned(qs: string, t: string, w: nat)
    requires Canonical(qs) && qs[0] != '0' && |qs| <= 2
    requires 0 < w <= |t| && SidesRun(t) == w
    ensures MatchDie(qs + "d" + t)
      == Some(DieMatch(DigitsValue(qs), DigitsValue(t[..w]), MatchKeep(t[w..]).0, MatchKeep(t[w..]).1))
  {
    var s := qs + "d" + t;
    var q := |qs|;
    assert LeadRun(s, 2) == q && s[..q] == qs && s[q] == 'd' && s[q + 1..] == t by {
      assert s == qs + ("d" + t);
      LeadRunOfNumeral(qs, "d" + t, 2);
    }
  }

  /** The sides field of a die group is read back whole when no digit follows. */
  lemma SidesScanned(sides: int, u: string)
    requires 1 <= sides <= 100 && (u == [] || !IsDigit(u[0]))
    ensures var ss := NatToString(sides);
      SidesRun(ss + u) == |ss| && (ss + u)[..|ss|] == ss && (ss + u)[|ss|..] == u
      && DigitsValue(ss) == sides
  {
    NatToStringValue(sides);
    if sides == 100 {
      assert NatToString(100) == "100";
    } else {
      NatToStringLength(sides, 2);
    }
    SidesDigitsScanned(NatToString(sides), u);
  }

  /** `100` or a numeral of at most two digits, then no digit. */
  lemma SidesDigitsScanned(ss: string, u: string)
    requires Canonical(ss) && ss[0] != '0' && (ss == "100" || |ss| <= 2)
    requires u == [] || !IsDigit(u[0])
    ensures SidesRun(ss + u) == |ss| && (ss + u)[..|ss|] == ss && (ss + u)[|ss|..] == u
  {
    var t := ss + u;
    assert t[..|ss|] == ss;
    if ss != "100" {
      LeadRunOfNumeral(ss, u, 2);
      assert t[0] == ss[0];
      assert |ss| == 1 && |t| >= 3 ==> t[1] == u[0];
      assert |ss| == 2 && |t| >= 3 ==> t[1] == ss[1] && t[2] == u[0];
    }
  }

  /** The keep suffix of a die group is read back whole before a separator. */
  lemma KeepScanned(filter: Option<KeepFilter>, rest: string)
    requires filter.Some? ==> 1 <= filter.value.count <= 999
    requires Separates(rest)
    ensures MatchKeep(KeepText(filter) + rest) == (filter, rest)
    ensures var u := KeepText(filter) + rest; u == [] || !IsDigit(u[0])
  {
    match filter
    case None =>
      assert KeepText(filter) + rest == rest;
    case Some(f) =>
      var cs := NatToString(f.count);
      NatToStringLength(f.count, 3);
      NatToStringValue(f.count);
      var c := if f.mode == KeepLowest then 'v' else '^';
      assert KeepText(filter) + rest == [c] + cs + rest;
      KeepDigitsScanned(c, cs, rest);
  }

  /** `v` or `^` and a numeral of at most three digits, then no digit. */
  lemma KeepDigitsScanned(c: char, cs: string, rest: string)
    requires c == 'v' || c == '^'
    requires Canonical(cs) && cs[0] != '0' && |cs| <= 3
    requires |cs| < 3 ==> rest == [] || !IsDigit(rest[0])
    ensures MatchKeep([c] + cs + rest)
      == (Some(KeepFilter(if c == 'v' then KeepLowest else KeepHighest, DigitsValue(cs))), rest)
  {
    KeepRunOf(c, cs, rest);
  }

  /** Where the keep count of `[c] + cs + rest` starts and ends. */
  lemma KeepRunOf(c: char, cs: string, rest: string)
    requires Canonical(cs) && cs[0] != '0' && |cs| <= 3
    requires |cs| < 3 ==> rest == [] || !IsDigit(rest[0])
    ensures var u := [c] + cs + rest;
      u[0] == c && LeadRun(u[1..], 3) == |cs| && u[1..][..|cs|] == cs && u[|cs| + 1..] == rest
  {
    var u := [c] + (cs + rest);
    assert [c] + cs + rest == u;
    assert u[1..] == cs + rest;
    LeadRunOfNumeral(cs, rest, 3);
  }
}
