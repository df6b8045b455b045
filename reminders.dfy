/** The pure rules of src/salamander/reminders.py: reading an hour typed in
    12- or 24-hour form (`parse_hour`), printing an hour in 12-hour form
    (`en_hour_to_str`), and the index arithmetic of the reminder pager
    (`ReminderView.index_setup`). */
module Reminders {
  import opened Wrappers
  import opened Text
  import Arith

  /** `hour.replace(" ", "")`: drops every space and keeps the rest in order. */
  function RemoveSpaces(s: string): (r: string)
    ensures |r| <= |s| && ' ' !in r
  {
    if s == [] then []
    else if s[0] == ' ' then RemoveSpaces(s[1..])
    else [s[0]] + RemoveSpaces(s[1..])
  }

  /** `int(s)` for an optional sign followed by ASCII digits; anything else
      raises `ValueError`, here `None`. */
  function ParseInt(s: string): (r: Option<int>)
    ensures r.Some? ==> s != []
  {
    if s != [] && (s[0] == '+' || s[0] == '-') then
      var d := s[1..];
      if d != [] && AllDigits(d) then Some(if s[0] == '-' then -(DigitsValue(d) as int) else DigitsValue(d))
      else None
    else if s != [] && AllDigits(s) then Some(DigitsValue(s))
    else None
  }

  /** The hour before the range check: the 12-hour path when the text ends
      with a lower-case `m`, the 24-hour path otherwise. */
  function RawHour(h: string): Option<int> {
    if h != [] && h[|h| - 1] == 'm' then
      var n := if |h| >= 2 then |h| - 2 else 0;
      var prefix, suffix := h[..n], h[n..];
      if LowerAscii(suffix) != "am" && LowerAscii(suffix) != "pm" then None
      else if |prefix| > 2 then None
      else match ParseInt(prefix)
        case None => None
        case Some(v) =>
          Some(if suffix == "am" && v == 12 then 0
               else if suffix == "pm" && v != 12 then v + 12
               else v)
    else ParseInt(h)
  }

  /** `parse_hour(hour)`: an hour of the day, or `None`. */
  function ParseHour(hour: string): (r: Option<int>)
    ensures r.Some? ==> 0 <= r.value <= 23
    ensures r.Some? ==> RemoveSpaces(hour) != []
  {
    var inthour := RawHour(RemoveSpaces(hour));
    if inthour.Some? && 0 <= inthour.value <= 23 then inthour else None
  }

  /** `en_hour_to_str(hour)` */
  function EnHourToStr(hour: int): string {
    if hour == 0 then "12am"
    else if hour == 12 then "12pm"
    else if hour > 12 then IntToString(hour - 12) + "pm"
    else IntToString(hour) + "am"
  }

  /** Spaces are removed piecewise, so the other characters keep their order. */
  lemma {:induction false} RemoveSpacesAppend(a: string, b: string)
    ensures RemoveSpaces(a + b) == RemoveSpaces(a) + RemoveSpaces(b)
  {
    if a == [] {
      assert a + b == b;
    } else {
      assert (a + b)[0] == a[0] && (a + b)[1..] == a[1..] + b;
      RemoveSpacesAppend(a[1..], b);
    }
  }

  /** Only spaces are removed: every other character occurs as often as before. */
  lemma {:induction false} RemoveSpacesCounts(s: string)
    ensures forall c :: c != ' ' ==> multiset(RemoveSpaces(s))[c] == multiset(s)[c]
  {
    if s != [] {
      assert s == [s[0]] + s[1..];
      RemoveSpacesCounts(s[1..]);
    }
  }

  /** `int(str(i)) == i`, and a leading `+` is accepted. */
  lemma ParseIntRoundTrip(i: int)
    ensures ParseInt(IntToString(i)) == Some(i)
    ensures i >= 0 ==> ParseInt("+" + IntToString(i)) == Some(i)
  {
    var w := NatToString(if i < 0 then -i else i);
    NatToStringValue(if i < 0 then -i else i);
    assert !(w[0] == '+' || w[0] == '-') by {
      assert IsDigit(w[0]);
    }
    assert ("-" + w)[1..] == w && ("+" + w)[1..] == w;
  }

  /** In the 12-hour path the number has at most two characters: a text
      ending in `m` that is longer than four characters once its spaces are
      removed is never an hour, `001pm` for one. */
  lemma TwelveHourTooLong(hour: string)
    requires var t := RemoveSpaces(hour); t != [] && t[|t| - 1] == 'm' && |t| > 4
    ensures ParseHour(hour) == None
  {
  }

  /** A text ending in `m` whose last two characters are not `am` or `pm`
      in any case is never an hour; it does not fall back to `int()`. */
  lemma TwelveHourBadSuffix(hour: string)
    requires var t := RemoveSpaces(hour);
      t != [] && t[|t| - 1] == 'm' && (|t| < 2 || (LowerAscii(t[|t| - 2..]) != "am" && LowerAscii(t[|t| - 2..]) != "pm"))
    ensures ParseHour(hour) == None
  {
  }

  lemma LeadingZerosRejected()
    ensures ParseHour("001pm") == None
  {
    NoSpacesKept("001pm");
    TwelveHourTooLong("001pm");
  }

  /** The clock hour 1-12 that `en_hour_to_str` prints for an hour of the day. */
  function ClockHour(h: int): (c: int)
    ensures 1 <= c <= 12 && c % 12 == h % 12
  {
    if h % 12 == 0 then 12 else h % 12
  }

  /** `en_hour_to_str` prints the clock hour, then `am` before noon and `pm` from noon on. */
  lemma EnHourClock(h: int)
    requires 0 <= h <= 23
    ensures EnHourToStr(h) == IntToString(ClockHour(h)) + (if h < 12 then "am" else "pm")
  {
    if 12 < h {
      assert h % 12 == h - 12;
    } else if 0 < h < 12 {
      assert h % 12 == h;
    }
  }

  /** Text without spaces is left as it is. */
  lemma {:induction false} NoSpacesKept(s: string)
    requires ' ' !in s
    ensures RemoveSpaces(s) == s
  {
    if s != [] {
      assert s[0] != ' ' && ' ' !in s[1..] by {
        assert s == [s[0]] + s[1..];
      }
      NoSpacesKept(s[1..]);
      assert s == [s[0]] + s[1..];
    }
  }

  /** A numeral followed by a suffix has no spaces to remove. */
  lemma NumeralNoSpaces(n: nat, suffix: string)
    requires ' ' !in suffix
    ensures RemoveSpaces(NatToString(n) + suffix) == NatToString(n) + suffix
  {
    var w := NatToString(n);
    assert ' ' !in w by {
      assert forall k :: 0 <= k < |w| ==> w[k] != ' ';
    }
    NoSpacesKept(w + suffix);
  }

  /** A printed number of at most two digits reads back as itself. */
  lemma ReadSmallNumeral(n: nat)
    requires n <= 99
    ensures |NatToString(n)| <= 2 && ParseInt(NatToString(n)) == Some(n)
  {
    var w := NatToString(n);
    if n >= 1 {
      NatToStringLength(n, 2);
    }
    NatToStringValue(n);
    assert w[0] != '+' && w[0] != '-' by {
      assert IsDigit(w[0]);
    }
  }

  /** The 12-hour path: the text `Nam` or `Npm` for N of at most two digits. */
  lemma TwelveHour(n: nat, suffix: string)
    requires n <= 99 && (suffix == "am" || suffix == "pm")
    ensures RawHour(RemoveSpaces(NatToString(n) + suffix))
      == Some(if suffix == "am" && n == 12 then 0 else if suffix == "pm" && n != 12 then n + 12 else n)
  {
    var w := NatToString(n);
    NumeralNoSpaces(n, suffix);
    ReadSmallNumeral(n);
    var h := w + suffix;
    assert h[|h| - 1] == 'm';
    assert h[..|h| - 2] == w && h[|h| - 2..] == suffix;
    assert LowerAscii("am") == "am" && LowerAscii("pm") == "pm";
  }

  /** `12am` is midnight, `Nam` is N for 1 <= N <= 11. */
  lemma ParseHourAm(n: nat)
    requires 1 <= n <= 12
    ensures ParseHour(IntToString(n) + "am") == Some(if n == 12 then 0 else n)
  {
    TwelveHour(n, "am");
  }

  /** `12pm` is noon, `Npm` is N + 12 for 1 <= N <= 11. */
  lemma ParseHourPm(n: nat)
    requires 1 <= n <= 12
    ensures ParseHour(IntToString(n) + "pm") == Some(if n == 12 then 12 else n + 12)
  {
    TwelveHour(n, "pm");
  }

  /** The 24-hour path reads every hour of the day. */
  lemma ParseHour24(h: nat)
    requires h <= 23
    ensures ParseHour(IntToString(h)) == Some(h)
  {
    var w := NatToString(h);
    NumeralNoSpaces(h, "");
    assert w + "" == w;
    ReadSmallNumeral(h);
    assert w[|w| - 1] != 'm' by {
      assert IsDigit(w[|w| - 1]);
    }
  }

  /** Printing an hour and reading it back gives the hour: "0 = 12am". */
  lemma EnHourRoundTrip(h: int)
    requires 0 <= h <= 23
    ensures ParseHour(EnHourToStr(h)) == Some(h)
  {
    assert NatToString(1) == "1" && NatToString(12) == NatToString(1) + [DigitChar(2)];
    assert IntToString(12) == "12";
    if h == 0 {
      ParseHourAm(12);
      assert IntToString(12) + "am" == "12am";
    } else if h == 12 {
      ParseHourPm(12);
      assert IntToString(12) + "pm" == "12pm";
    } else if h > 12 {
      ParseHourPm(h - 12);
    } else {
      ParseHourAm(h);
    }
  }

  /** `remind_at`'s default hour, the empty text, is not an hour. */
  lemma EmptyHourRejected()
    ensures ParseHour("") == None
  {
    assert RemoveSpaces("") == "";
  }

  /** The suffix test folds case but the conversion does not: `5Pm` is
      5 o'clock, not 17. */
  lemma MixedCasePm()
    ensures ParseHour("5Pm") == Some(5)
  {
    assert RemoveSpaces("5Pm") == "5Pm";
    assert "5Pm"[..1] == "5" && "5Pm"[1..] == "Pm";
    assert LowerAscii("Pm") == "pm";
    assert DigitsValue("5") == 5;
  }

  /** `12Am` is noon, not midnight. */
  lemma MixedCaseAm()
    ensures ParseHour("12Am") == Some(12)
  {
    assert RemoveSpaces("12Am") == "12Am";
    assert "12Am"[..2] == "12" && "12Am"[2..] == "Am";
    assert LowerAscii("Am") == "am";
    assert DigitsValue("12") == 12 by {
      assert "12"[..1] == "1";
    }
  }

  /** `5PM` does not end in a lower-case `m`, so it takes the 24-hour path
      and is rejected. */
  lemma UpperCaseRejected()
    ensures ParseHour("5PM") == None
  {
    assert RemoveSpaces("5PM") == "5PM";
    assert !IsDigit('P');
  }

  /** Spaces are dropped before reading: `5 pm` is 17. */
  lemma SpacedSuffix()
    ensures ParseHour("5 pm") == Some(17)
  {
    assert RemoveSpaces("5 pm") == "5pm";
    assert "5pm"[..1] == "5" && "5pm"[1..] == "pm";
    assert LowerAscii("pm") == "pm";
    assert DigitsValue("5") == 5;
  }

  /** A pending reminder as the pager shows it: the text of the reminder,
      its due time and the id of its scheduled task. */
  datatype Reminder = Reminder(content: string, time: int, taskId: string)

  /** What `index_setup` returns: the item shown (as the embed's text and
      timestamp), the three button flags and the id of the scheduled task. */
  datatype ReminderPage = ReminderPage(
    index: int, content: string, time: int,
    firstDisabled: bool, lastDisabled: bool, prevNextDisabled: bool, taskId: string)

  /** `ReminderView.index_setup(items, index)`. An empty list would divide by
      zero; the only caller returns before that. */
  function IndexSetup(items: seq<Reminder>, index: int): (p: ReminderPage)
    requires |items| > 0
    ensures 0 <= p.index < |items| && (index - p.index) % |items| == 0
    ensures 0 <= index < |items| ==> p.index == index
    ensures p.content == items[p.index].content && p.time == items[p.index].time
    ensures p.taskId == items[p.index].taskId
    ensures p.firstDisabled <==> p.index == 0
    ensures p.lastDisabled <==> p.index == |items| - 1
    ensures p.prevNextDisabled <==> |items| == 1
  {
    var ln := |items|;
    var i := index % ln;
    Arith.ModCongruent(index, ln);
    var item := items[i];
    ReminderPage(i, item.content, item.time, i == 0, i == ln - 1, ln == 1, item.taskId)
  }

  /** "Previous" from the first reminder asks for index -1 and shows the last
      one; "next" from the last asks for the length and shows the first. */
  lemma IndexWraps(items: seq<Reminder>)
    requires |items| > 0
    ensures IndexSetup(items, -1).index == |items| - 1 && IndexSetup(items, -1).lastDisabled
    ensures IndexSetup(items, |items|).index == 0 && IndexSetup(items, |items|).firstDisabled
  {
    Arith.RemainderUnique(|items|, -1, |items| - 1);
    Arith.RemainderUnique(|items|, |items|, 0);
  }
}
