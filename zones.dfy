/** Time-zone autocompletion, `closest_zones` in
    src/salamander/settings_commands.py: the zones whose folded name starts
    with the folded text typed so far, at most 25 of them, the first 25 in
    sorted order when there are more. The set of known zones is a
    parameter. */
module Zones {
  import opened Text

  /** Python's `<` on `str`: code point by code point, a proper prefix
      first. */
  predicate Less(a: string, b: string) {
    if a == [] then b != []
    else if b == [] then false
    else if a[0] != b[0] then a[0] < b[0]
    else Less(a[1..], b[1..])
  }

  lemma {:induction false} LessIrreflexive(a: string)
    ensures !Less(a, a)
  {
    if a != [] {
      LessIrreflexive(a[1..]);
    }
  }

  lemma {:induction false} LessTransitive(a: string, b: string, c: string)
    requires Less(a, b) && Less(b, c)
    ensures Less(a, c)
  {
    if a != [] && b != [] && c != [] && a[0] == b[0] && b[0] == c[0] {
      LessTransitive(a[1..], b[1..], c[1..]);
    }
  }

  /** Any two different strings are ordered one way or the other, and never
      both ways. */
  lemma {:induction false} LessTotal(a: string, b: string)
    ensures a != b <==> Less(a, b) || Less(b, a)
    ensures !(Less(a, b) && Less(b, a))
  {
    if a == [] || b == [] {
    } else if a[0] != b[0] {
    } else {
      LessTotal(a[1..], b[1..]);
      assert a == [a[0]] + a[1..] && b == [b[0]] + b[1..];
    }
  }

  /** Strictly increasing, hence also without repeats. */
  predicate StrictlySorted(s: seq<string>) {
    forall i, j :: 0 <= i < j < |s| ==> Less(s[i], s[j])
  }

  predicate Distinct(s: seq<string>) {
    forall i, j :: 0 <= i < j < |s| ==> s[i] != s[j]
  }

  /** `z.casefold().startswith(current.casefold())` */
  predicate Matches(zone: string, current: string) {
    LowerAscii(current) <= LowerAscii(zone)
  }

  /** The set comprehension `zone_matches`. */
  function Matching(zones: set<string>, current: string): (m: set<string>)
    ensures m <= zones
    ensures forall z :: z in m <==> z in zones && Matches(z, current)
  {
    set z | z in zones && Matches(z, current)
  }

  /** Typing more of the zone name can only narrow the matches. */
  lemma MatchingNarrows(zones: set<string>, current: string, more: string)
    ensures Matching(zones, current + more) <= Matching(zones, current)
  {
    LowerAsciiAppend(current, more);
  }

  /** The match ignores the case of what was typed. */
  lemma MatchingIgnoresCase(zones: set<string>, current: string)
    ensures Matching(zones, LowerAscii(current)) == Matching(zones, current)
  {
    LowerAsciiIdempotent(current);
  }

  /** Puts `x` into its place in a strictly sorted sequence that lacks it. */
  function Insert(x: string, s: seq<string>): (r: seq<string>)
    requires StrictlySorted(s) && x !in s
    ensures StrictlySorted(r)
    ensures |r| == |s| + 1 && (forall y :: y in r <==> y == x || y in s)
  {
    if s == [] then [x]
    else if Less(x, s[0]) then
      forall j | 0 < j < |s| ensures Less(x, s[j]) {
        LessTransitive(x, s[0], s[j]);
      }
      [x] + s
    else
      LessTotal(x, s[0]);
      var t := Insert(x, s[1..]);
      assert forall y :: y in t ==> Less(s[0], y) by {
        forall y | y in t ensures Less(s[0], y) {
          if y != x {
            var j :| 0 <= j < |s[1..]| && s[1..][j] == y;
            assert y == s[j + 1];
          }
        }
      }
      [s[0]] + t
  }

  /** `sorted(xs)` for a list without repeats. */
  method SortStrings(xs: seq<string>) returns (s: seq<string>)
    requires Distinct(xs)
    ensures StrictlySorted(s) && |s| == |xs|
    ensures forall y :: y in s <==> y in xs
  {
    s := [];
    var i := 0;
    while i < |xs|
      invariant 0 <= i <= |xs|
      invariant StrictlySorted(s) && |s| == i
      invariant forall y :: y in s <==> y in xs[..i]
    {
      assert xs[i] !in xs[..i];
      s := Insert(xs[i], s);
      assert xs[..i + 1] == xs[..i] + [xs[i]];
      i := i + 1;
    }
    assert xs[..i] == xs;
  }

  /** `list(zone_matches)`: the members of a set in some order, each once. */
  method ListOf(m: set<string>) returns (xs: seq<string>)
    ensures Distinct(xs) && |xs| == |m|
    ensures forall y :: y in xs <==> y in m
  {
    xs := [];
    var rest := m;
    while rest != {}
      invariant Distinct(xs) && |xs| + |rest| == |m|
      invariant forall y :: y in m <==> y in xs || y in rest
      invariant forall y :: y in xs ==> y !in rest
      decreases |rest|
    {
      var x :| x in rest;
      xs := xs + [x];
      rest := rest - {x};
    }
  }

  /** `closest_zones(current)` over the zone set `zones`. */
  method ClosestZones(zones: set<string>, current: string) returns (r: seq<string>)
    ensures |r| <= 25 && Distinct(r)
    ensures forall z :: z in r ==> z in zones && Matches(z, current)
    ensures |Matching(zones, current)| <= 25 ==>
      forall z :: z in r <==> z in zones && Matches(z, current)
    ensures |Matching(zones, current)| > 25 ==>
      |r| == 25 && StrictlySorted(r) &&
      forall z, y :: z in Matching(zones, current) && z !in r && y in r ==> Less(y, z)
  {
    var matches := Matching(zones, current);
    var xs := ListOf(matches);
    if |xs| > 25 {
      var sorted := SortStrings(xs);
      r := sorted[..25];
      forall z, y | z in matches && z !in r && y in r ensures Less(y, z) {
        var j :| 0 <= j < |sorted| && sorted[j] == z;
        var i :| 0 <= i < 25 && r[i] == y;
        assert j >= 25 by {
          assert forall k :: 0 <= k < 25 ==> r[k] == sorted[k];
        }
      }
    } else {
      r := xs;
    }
    forall i, j | 0 <= i < j < |r| ensures r[i] != r[j] {
      if |xs| > 25 {
        LessIrreflexive(r[i]);
      }
    }
  }
}
