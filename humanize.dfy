/**
 * Human-readable formatting of durations and counts (src/humanize.rs).
 * A duration is a whole number of nanoseconds, as a `std::time::Duration`
 * holds it; the text written to the formatter is built up as a string.
 */
module Humanize {
  import opened Wrappers
  import opened Digits
  import opened Shared

  // ---------------------------------------------------------------------------
  // FormattedDuration
  // ---------------------------------------------------------------------------

  const MINUTE_SECS := 60
  const HOUR_SECS := 60 * 60
  const DAY_SECS := 24 * 60 * 60

  /** `{:02}`: the decimal text of `n`, left-padded with '0' to two characters. */
  function Pad2(n: nat): (s: string)
    ensures AllDigits(s) && DigitsValue(s) == n
    ensures n < 100 ==> |s| == 2
  {
    NatToStringValue(n);
    if n < 10 then
      LeadingZero(NatToString(n));
      "0" + NatToString(n)
    else
      NatToString(n)
  }

  /** A leading '0' does not change the value of a digit string. */
  lemma {:induction false} LeadingZero(s: string)
    requires AllDigits(s)
    ensures AllDigits("0" + s) && DigitsValue("0" + s) == DigitsValue(s)
  {
    if s != [] {
      assert ("0" + s)[..|s|] == "0" + s[..|s| - 1];
      LeadingZero(s[..|s| - 1]);
    }
  }

  /**
   * The text of `FormattedDuration` for a whole number of seconds:
   * `{days}d HH:MM:SS` from one day on, `HH:MM:SS` below.
   */
  function ClockText(secs: nat): string {
    var days := secs / DAY_SECS;
    if days > 0 then NatToString(days) + "d " + Clock(secs) else Clock(secs)
  }

  /** The `HH:MM:SS` part: hours within the day, minutes, seconds. */
  function Clock(secs: nat): string {
    Pad2(secs / HOUR_SECS % 24) + ":" + Pad2(secs / MINUTE_SECS % 60) + ":" + Pad2(secs % 60)
  }

  /** Dividing by 60 and then by 60 is dividing by 3600; then by 24 is dividing by 86400. */
  lemma DivSteps(secs: nat)
    ensures secs / 60 / 60 == secs / HOUR_SECS
    ensures secs / HOUR_SECS / 24 == secs / DAY_SECS
  {
  }

  /**
   * `FormattedDuration::fmt`: the whole seconds of the duration (nanoseconds
   * are truncated away) divided step by step into seconds, minutes, hours
   * and days.
   */
  method FormattedDuration(d: nat) returns (s: string)
    ensures s == ClockText(d / NANOS_PER_SEC)
  {
    var t := d / NANOS_PER_SEC;
    ghost var secs := t;
    var seconds := t % 60;
    t := t / 60;
    var minutes := t % 60;
    t := t / 60;
    var hours := t % 24;
    t := t / 24;
    DivSteps(secs);
    if t > 0 {
      var days := t;
      s := NatToString(days) + "d " + Pad2(hours) + ":" + Pad2(minutes) + ":" + Pad2(seconds);
    } else {
      s := Pad2(hours) + ":" + Pad2(minutes) + ":" + Pad2(seconds);
    }
  }

  /** The four fields are in range and add back up to the number of seconds. */
  lemma ClockFieldsRecompose(secs: nat)
    ensures secs / HOUR_SECS % 24 < 24 && secs / MINUTE_SECS % 60 < 60 && secs % 60 < 60
    ensures secs == secs / DAY_SECS * DAY_SECS + secs / HOUR_SECS % 24 * HOUR_SECS
                    + secs / MINUTE_SECS % 60 * MINUTE_SECS + secs % 60
  {
    var q1 := secs / 60;
    var q2 := q1 / 60;
    var q3 := q2 / 24;
    DivSteps(secs);
    assert secs == 60 * q1 + secs % 60;
    assert q1 == 60 * q2 + q1 % 60;
    assert q2 == 24 * q3 + q2 % 24;
  }

  /** Below one day the text is exactly `HH:MM:SS`. */
  lemma ClockTextBelowDay(secs: nat)
    requires secs < DAY_SECS
    ensures var s := ClockText(secs); |s| == 8 && s[2] == ':' && s[5] == ':'
  {
    assert |Pad2(secs / HOUR_SECS % 24)| == 2;
  }

  /** Past the day count, the fields are those of the time left within the day. */
  lemma DayRemainderFields(secs: nat)
    ensures secs / MINUTE_SECS % 60 == secs % DAY_SECS / MINUTE_SECS % 60
    ensures secs / HOUR_SECS % 24 == secs % DAY_SECS / HOUR_SECS % 24
    ensures secs % 60 == secs % DAY_SECS % 60
  {
    var q, r := secs / DAY_SECS, secs % DAY_SECS;
    assert secs == 86400 * q + r && 0 <= r < 86400;
    MinuteField(secs, q, r);
    HourField(secs, q, r);
  }

  /** Whole days are whole minutes: the minute and second fields ignore them. */
  lemma MinuteField(secs: nat, q: nat, r: nat)
    requires secs == 86400 * q + r && r < 86400
    ensures secs / 60 % 60 == r / 60 % 60 && secs % 60 == r % 60
  {
    var m, s := r / 60, r % 60;
    assert secs == 60 * (1440 * q + m) + s && 0 <= s < 60;
    assert secs / 60 == 1440 * q + m;
    assert (1440 * q + m) == 60 * (24 * q) + m;
  }

  /** Whole days are whole hours: the hour field ignores them. */
  lemma HourField(secs: nat, q: nat, r: nat)
    requires secs == 86400 * q + r && r < 86400
    ensures secs / 3600 % 24 == r / 3600 % 24
  {
    var h, s := r / 3600, r % 3600;
    assert secs == 3600 * (24 * q + h) + s && 0 <= s < 3600;
    assert secs / 3600 == 24 * q + h;
  }

  /**
   * From one day on the text is the unpadded day count, "d ", and the clock
   * of the time left within the day.
   */
  lemma ClockTextFromDay(secs: nat)
    requires secs >= DAY_SECS
    ensures ClockText(secs) == NatToString(secs / DAY_SECS) + "d " + ClockText(secs % DAY_SECS)
  {
    var r := secs % DAY_SECS;
    ClockTextDays(secs);
    ClockTextClock(r);
    ClockWithinDay(secs);
  }

  /** From one day on, the day count and "d " come before the clock. */
  lemma ClockTextDays(secs: nat)
    requires secs >= DAY_SECS
    ensures ClockText(secs) == NatToString(secs / DAY_SECS) + "d " + Clock(secs)
  {
  }

  /** Below one day, the text is the clock alone. */
  lemma ClockTextClock(secs: nat)
    requires secs < DAY_SECS
    ensures ClockText(secs) == Clock(secs)
  {
  }

  /** The clock part depends only on the time within the day. */
  lemma ClockWithinDay(secs: nat)
    ensures Clock(secs) == Clock(secs % DAY_SECS)
  {
    DayRemainderFields(secs);
  }

  /** 3661 seconds read "01:01:01". */
  lemma ClockTextHourExample()
    ensures ClockText(3661) == "01:01:01"
  {
    assert 3661 / HOUR_SECS % 24 == 1 && 3661 / MINUTE_SECS % 60 == 1 && 3661 % 60 == 1;
    assert 3661 / DAY_SECS == 0;
    assert Pad2(1) == "01";
  }

  /** 90061 seconds read "1d 01:01:01". */
  lemma ClockTextDayExample()
    ensures ClockText(90061) == "1d 01:01:01"
  {
    assert 90061 / DAY_SECS == 1;
    assert 90061 / HOUR_SECS % 24 == 1 && 90061 / MINUTE_SECS % 60 == 1 && 90061 % 60 == 1;
    assert Pad2(1) == "01";
    assert NatToString(1) == "1";
  }

  // ---------------------------------------------------------------------------
  // HumanDuration
  // ---------------------------------------------------------------------------

  /** One entry of `UNITS`: its length in seconds, its name and its abbreviation. */
  datatype Unit = Unit(secs: nat, name: string, alt: string)

  const UNITS: seq<Unit> := [
    Unit(365 * 24 * 60 * 60, "year", "y"),
    Unit(7 * 24 * 60 * 60, "week", "w"),
    Unit(24 * 60 * 60, "day", "d"),
    Unit(60 * 60, "hour", "h"),
    Unit(60, "minute", "m"),
    Unit(1, "second", "s")
  ]

  /** The units run from coarsest to finest, with the multiples of a calendar, and end with the second. */
  lemma UnitsOrdered()
    ensures |UNITS| == 6 && UNITS[|UNITS| - 1] == Unit(1, "second", "s")
    ensures forall i :: 0 <= i < |UNITS| - 1 ==> UNITS[i].secs > UNITS[i + 1].secs
    ensures UNITS[0].secs == 365 * UNITS[2].secs && UNITS[1].secs == 7 * UNITS[2].secs
    ensures UNITS[2].secs == 24 * UNITS[3].secs && UNITS[3].secs == 60 * UNITS[4].secs
    ensures UNITS[4].secs == 60 * UNITS[5].secs
  {
    assert UNITS[0].secs == 31536000 && UNITS[1].secs == 604800 && UNITS[2].secs == 86400;
    assert UNITS[3].secs == 3600 && UNITS[4].secs == 60 && UNITS[5].secs == 1;
  }

  /** The length of unit `i` in nanoseconds. */
  function UnitNanos(i: nat): (n: nat)
    requires i < |UNITS|
    ensures n >= NANOS_PER_SEC
  {
    UNITS[i].secs * NANOS_PER_SEC
  }

  /**
   * The scan stops at unit `i` when a next finer unit `v` exists and
   * `d + v/2 >= u + u/2`, with Duration's exact halving.
   */
  predicate StopsAt(d: nat, i: nat)
    requires i < |UNITS|
  {
    i + 1 < |UNITS| && d + UnitNanos(i + 1) / 2 >= UnitNanos(i) + UnitNanos(i) / 2
  }

  /** The unit the scan settles on when it starts at `i`. */
  function UnitIndexFrom(d: nat, i: nat): (idx: nat)
    requires i < |UNITS|
    ensures i <= idx < |UNITS|
    ensures idx == |UNITS| - 1 || StopsAt(d, idx)
    ensures forall j :: i <= j < idx ==> !StopsAt(d, j)
    decreases |UNITS| - i
  {
    if i == |UNITS| - 1 || StopsAt(d, i) then i else UnitIndexFrom(d, i + 1)
  }

  /** The chosen unit: the first at which the scan stops, else the last (seconds). */
  function UnitIndex(d: nat): (idx: nat)
    ensures idx < |UNITS|
    ensures idx == |UNITS| - 1 || StopsAt(d, idx)
    ensures forall j :: 0 <= j < idx ==> !StopsAt(d, j)
  {
    UnitIndexFrom(d, 0)
  }

  /** A longer duration never picks a finer unit. */
  lemma UnitIndexMonotone(d1: nat, d2: nat)
    requires d1 <= d2
    ensures UnitIndex(d2) <= UnitIndex(d1)
  {
    var i1 := UnitIndex(d1);
    if i1 < |UNITS| - 1 {
      assert StopsAt(d2, i1);
    }
  }

  /** `(d / unit).round()` on exact values: the nearest whole number of units, halves rounded up. */
  function RoundedCount(d: nat, unit: nat): (t: nat)
    requires unit > 0
    ensures 2 * t * unit <= 2 * d + unit < 2 * t * unit + 2 * unit
  {
    var x, y := 2 * d + unit, 2 * unit;
    var t := x / y;
    assert y * t <= x < y * t + y;
    assert y * t == 2 * t * unit;
    t
  }

  function Max(a: nat, b: nat): nat {
    if a >= b then a else b
  }

  /** The count shown: rounded, and at least 2 for every unit but seconds. */
  function DisplayCount(d: nat): nat {
    var idx := UnitIndex(d);
    var t := RoundedCount(d, UnitNanos(idx));
    if idx < |UNITS| - 1 then Max(t, 2) else t
  }

  /** "{t}{abbr}" in alternate mode, otherwise "{t} {name}" with an "s" unless t is 1. */
  function Render(t: nat, unit: Unit, alternate: bool): string {
    if alternate then NatToString(t) + unit.alt
    else if t == 1 then NatToString(t) + " " + unit.name
    else NatToString(t) + " " + unit.name + "s"
  }

  /** The text `HumanDuration` writes. */
  function HumanDurationText(d: nat, alternate: bool): string {
    Render(DisplayCount(d), UNITS[UnitIndex(d)], alternate)
  }

  /** `HumanDuration::fmt`: the unit scan loop, then the rounding, clamping and rendering. */
  method HumanDuration(d: nat, alternate: bool) returns (s: string)
    ensures s == HumanDurationText(d, alternate)
  {
    var idx := 0;
    var i := 0;
    while i < |UNITS|
      invariant 0 <= i <= |UNITS|
      invariant i > 0 ==> idx == i - 1
      invariant forall j :: 0 <= j < i ==> !StopsAt(d, j)
    {
      idx := i;
      if i + 1 < |UNITS| && d + UnitNanos(i + 1) / 2 >= UnitNanos(i) + UnitNanos(i) / 2 {
        break;
      }
      i := i + 1;
    }
    assert idx == UnitIndex(d) by {
      var u := UnitIndex(d);
      assert !(idx < u) && !(u < idx);
    }
    var unit := UNITS[idx];
    var t := RoundedCount(d, UnitNanos(idx));
    if idx < |UNITS| - 1 {
      t := Max(t, 2);
    }
    if alternate {
      s := NatToString(t) + unit.alt;
    } else if t == 1 {
      s := NatToString(t) + " " + unit.name;
    } else {
      s := NatToString(t) + " " + unit.name + "s";
    }
  }

  /**
   * Every unit but seconds shows at least 2, so a count of 1 is only ever
   * "1 second", for durations from half a second to just under one and a half.
   */
  lemma DisplayCountAtLeastTwo(d: nat)
    ensures UnitIndex(d) < |UNITS| - 1 ==> DisplayCount(d) >= 2
    ensures DisplayCount(d) == 1 ==>
      UnitIndex(d) == |UNITS| - 1 && NANOS_PER_SEC / 2 <= d < 3 * NANOS_PER_SEC / 2
  {
  }

  /**
   * The clamp only ever turns a rounded 1 into 2: otherwise the count shown is
   * the nearest whole number of the chosen unit.
   */
  lemma DisplayCountIsRounded(d: nat)
    ensures var u := UnitNanos(UnitIndex(d));
      DisplayCount(d) == RoundedCount(d, u) || (RoundedCount(d, u) == 1 && DisplayCount(d) == 2)
  {
    var idx := UnitIndex(d);
    var u := UnitNanos(idx);
    if idx < |UNITS| - 1 {
      UnitsOrdered();
      assert UnitNanos(idx + 1) < u;
      assert d >= u;
      assert RoundedCount(d, u) >= 1;
    }
  }

  /** The unit lengths in nanoseconds. */
  lemma UnitNanosValues()
    ensures UnitNanos(0) == 31536000 * NANOS_PER_SEC && UnitNanos(1) == 604800 * NANOS_PER_SEC
    ensures UnitNanos(2) == 86400 * NANOS_PER_SEC && UnitNanos(3) == 3600 * NANOS_PER_SEC
    ensures UnitNanos(4) == 60 * NANOS_PER_SEC && UnitNanos(5) == NANOS_PER_SEC
  {
  }

  /** 89 seconds stay "89 seconds": 89.5 s is short of the 90 s a minute needs. */
  lemma HumanDuration89Seconds()
    ensures HumanDurationText(89 * NANOS_PER_SEC, false) == "89 seconds"
  {
    var d := 89 * NANOS_PER_SEC;
    UnitNanosValues();
    assert !StopsAt(d, 0) && !StopsAt(d, 1) && !StopsAt(d, 2) && !StopsAt(d, 3) && !StopsAt(d, 4);
    assert UnitIndex(d) == 5;
    assert RoundedCount(d, UnitNanos(5)) == 89;
    assert NatToString(89) == "89";
  }

  /** 90 seconds switch to minutes and, clamped, read "2 minutes" ("2m" in alternate mode). */
  lemma HumanDuration90Seconds()
    ensures HumanDurationText(90 * NANOS_PER_SEC, false) == "2 minutes"
    ensures HumanDurationText(90 * NANOS_PER_SEC, true) == "2m"
  {
    var d := 90 * NANOS_PER_SEC;
    UnitNanosValues();
    assert !StopsAt(d, 0) && !StopsAt(d, 1) && !StopsAt(d, 2) && !StopsAt(d, 3) && StopsAt(d, 4);
    assert UnitIndex(d) == 4;
    assert RoundedCount(d, UnitNanos(4)) == 2;
    assert NatToString(2) == "2";
  }

  /** 1 hour 59 minutes reads "2 hours", not "1 hour". */
  lemma HumanDuration119Minutes()
    ensures HumanDurationText(7140 * NANOS_PER_SEC, false) == "2 hours"
  {
    var d := 7140 * NANOS_PER_SEC;
    UnitNanosValues();
    assert !StopsAt(d, 0) && !StopsAt(d, 1) && !StopsAt(d, 2) && StopsAt(d, 3);
    assert UnitIndex(d) == 3;
    assert RoundedCount(d, UnitNanos(3)) == 2;
    assert NatToString(2) == "2";
  }

  /** One second is the one place a count of 1 appears: "1 second". */
  lemma HumanDurationOneSecond()
    ensures HumanDurationText(NANOS_PER_SEC, false) == "1 second"
  {
    var d := NANOS_PER_SEC;
    UnitNanosValues();
    assert !StopsAt(d, 0) && !StopsAt(d, 1) && !StopsAt(d, 2) && !StopsAt(d, 3) && !StopsAt(d, 4);
    assert UnitIndex(d) == 5;
    assert RoundedCount(d, UnitNanos(5)) == 1;
    assert NatToString(1) == "1";
  }

  // ---------------------------------------------------------------------------
  // HumanCount and HumanFloatCount
  // ---------------------------------------------------------------------------

  /** What the loop writes after the character that has `pos` characters to its right. */
  function Sep(pos: nat): string {
    if pos > 0 && pos % 3 == 0 then "," else ""
  }

  /** The grouping loop's output for `s` when `k` more characters follow `s`. */
  function GroupedFrom(s: string, k: nat): string
    decreases |s|
  {
    if s == [] then [] else [s[0]] + Sep(|s| - 1 + k) + GroupedFrom(s[1..], k)
  }

  /** The grouping loop's output for the whole of `s`. */
  function Grouped(s: string): string {
    GroupedFrom(s, 0)
  }

  /**
   * The loop shared by `HumanCount::fmt` and `HumanFloatCount::fmt`: each
   * character, then a comma when a positive multiple of three characters
   * follow it.
   */
  method WriteGrouped(num: string) returns (out: string)
    ensures out == Grouped(num)
  {
    out := [];
    var len := |num|;
    var idx := 0;
    while idx < len
      invariant 0 <= idx <= len
      invariant out + Grouped(num[idx..]) == Grouped(num)
    {
      assert num[idx..][1..] == num[idx + 1..];
      var pos := len - idx - 1;
      out := out + [num[idx]];
      if pos > 0 && pos % 3 == 0 {
        out := out + [','];
      }
      idx := idx + 1;
    }
  }

  /** The reference grouping: groups of three from the right, the leftmost group of one to three. */
  function GroupRight(s: string): string
    decreases |s|
  {
    if |s| <= 3 then s else GroupRight(s[..|s| - 3]) + "," + s[|s| - 3..]
  }

  lemma {:induction false} GroupedFromAppend(a: string, b: string, k: nat)
    ensures GroupedFrom(a + b, k) == GroupedFrom(a, |b| + k) + GroupedFrom(b, k)
    decreases |a|
  {
    if a != [] {
      assert (a + b)[1..] == a[1..] + b;
      GroupedFromAppend(a[1..], b, k);
    } else {
      assert a + b == b;
    }
  }

  lemma {:induction false} GroupedFromShift(a: string)
    requires a != []
    ensures GroupedFrom(a, 3) == GroupedFrom(a, 0) + ","
    decreases |a|
  {
    if |a| > 1 {
      GroupedFromShift(a[1..]);
      assert Sep(|a| - 1 + 3) == Sep(|a| - 1);
    }
  }

  lemma {:induction false} GroupedShort(s: string)
    requires |s| <= 3
    ensures Grouped(s) == s
    decreases |s|
  {
    if s != [] {
      GroupedShort(s[1..]);
      assert Sep(|s| - 1) == "";
    }
  }

  /** The loop's grouping is exactly groups of three digits counted from the right. */
  lemma {:induction false} GroupedIsGroupRight(s: string)
    ensures Grouped(s) == GroupRight(s)
    decreases |s|
  {
    if |s| <= 3 {
      GroupedShort(s);
    } else {
      var a, b := s[..|s| - 3], s[|s| - 3..];
      assert s == a + b;
      GroupedFromAppend(a, b, 0);
      GroupedFromShift(a);
      GroupedShort(b);
      GroupedIsGroupRight(a);
    }
  }

  /** Grouping adds one comma per full group of three below the leading group. */
  lemma {:induction false} GroupRightLength(s: string)
    requires s != []
    ensures |GroupRight(s)| == |s| + (|s| - 1) / 3
    decreases |s|
  {
    if |s| > 3 {
      GroupRightLength(s[..|s| - 3]);
    }
  }

  /** `s` with every comma removed. */
  function StripCommas(s: string): string
    decreases |s|
  {
    if s == [] then [] else (if s[0] == ',' then [] else [s[0]]) + StripCommas(s[1..])
  }

  lemma {:induction false} StripCommasAppend(a: string, b: string)
    ensures StripCommas(a + b) == StripCommas(a) + StripCommas(b)
    decreases |a|
  {
    if a != [] {
      assert (a + b)[1..] == a[1..] + b;
      StripCommasAppend(a[1..], b);
    } else {
      assert a + b == b;
    }
  }

  /** Deleting the commas from the grouped text gives back the text that was grouped. */
  lemma {:induction false} GroupedStripCommas(s: string, k: nat)
    requires ',' !in s
    ensures StripCommas(GroupedFrom(s, k)) == s
    decreases |s|
  {
    if s != [] {
      GroupedStripCommas(s[1..], k);
      StripCommasAppend([s[0]] + Sep(|s| - 1 + k), GroupedFrom(s[1..], k));
      StripCommasAppend([s[0]], Sep(|s| - 1 + k));
      assert s == [s[0]] + s[1..];
    }
  }

  /** The grouped text starts and ends with a character of the input, never with a comma. */
  lemma GroupedEnds(s: string)
    requires s != [] && ',' !in s
    ensures var g := Grouped(s); g[0] == s[0] && g[|g| - 1] == s[|s| - 1]
  {
    GroupedIsGroupRight(s);
    GroupRightEnds(s);
  }

  lemma {:induction false} GroupRightEnds(s: string)
    requires s != []
    ensures var g := GroupRight(s); |g| > 0 && g[0] == s[0] && g[|g| - 1] == s[|s| - 1]
    decreases |s|
  {
    if |s| > 3 {
      GroupRightEnds(s[..|s| - 3]);
    }
  }

  /** Every character of the grouped text is a character of the input or a comma. */
  lemma {:induction false} GroupedChars(s: string, k: nat, c: char)
    requires c in GroupedFrom(s, k)
    ensures c in s || c == ','
    decreases |s|
  {
    if s != [] && c != s[0] && c !in Sep(|s| - 1 + k) {
      GroupedChars(s[1..], k, c);
    }
  }

  /** `HumanCount::fmt`: the decimal text of `n`, grouped by threes with commas. */
  method HumanCount(n: nat) returns (s: string)
    ensures s == GroupRight(NatToString(n))
    ensures StripCommas(s) == NatToString(n)
  {
    var num := NatToString(n);
    s := WriteGrouped(num);
    GroupedIsGroupRight(num);
    GroupedStripCommas(num, 0);
  }

  /** 1234567 reads "1,234,567". */
  lemma HumanCountExample()
    ensures Grouped(NatToString(1234567)) == "1,234,567"
  {
    DigitsExample();
    GroupedSevenDigits();
  }

  /** 1234567 is written "1234567". */
  lemma DigitsExample()
    ensures NatToString(1234567) == "1234567"
  {
  }

  /** Seven digits take separators after the first and the fourth. */
  lemma GroupedSevenDigits()
    ensures Grouped("1234567") == "1,234,567"
  {
    var s := "1234567";
    GroupedIsGroupRight(s);
    assert s[..4] == "1234" && s[4..] == "567";
    assert "1234"[..1] == "1" && "1234"[1..] == "234";
  }

  /** `split_once(c)`: the text before and after the first `c`. */
  function SplitOnce(s: string, c: char): (r: Option<(string, string)>)
    ensures r.None? <==> c !in s
    ensures r.Some? ==> s == r.value.0 + [c] + r.value.1 && c !in r.value.0
    decreases |s|
  {
    if s == [] then None
    else if s[0] == c then Some(([], s[1..]))
    else match SplitOnce(s[1..], c)
      case Some((a, b)) => Some(([s[0]] + a, b))
      case None => None
  }

  /** `trim_end_matches(c)`: `s` without its trailing run of `c`. */
  function TrimEnd(s: string, c: char): (r: string)
    ensures r <= s
    ensures r == [] || r[|r| - 1] != c
    ensures forall i :: |r| <= i < |s| ==> s[i] == c
    decreases |s|
  {
    if s != [] && s[|s| - 1] == c then TrimEnd(s[..|s| - 1], c) else s
  }

  /**
   * The text `HumanFloatCount` writes, given the `{:.4}` text of the value and,
   * for text without a '.', the text of the truncated value.
   */
  function FloatCountText(num: string, truncText: string): string {
    var parts := match SplitOnce(num, '.')
      case Some(p) => p
      case None => (truncText, "");
    var trimmed := TrimEnd(parts.1, '0');
    Grouped(parts.0) + (if trimmed != [] then "." + trimmed else "")
  }

  /** `HumanFloatCount::fmt` after the float has been formatted. */
  method HumanFloatCount(num: string, truncText: string) returns (out: string)
    ensures out == FloatCountText(num, truncText)
  {
    var intPart, fracPart;
    match SplitOnce(num, '.') {
      case Some(p) => intPart, fracPart := p.0, p.1;
      case None => intPart, fracPart := truncText, "";
    }
    out := WriteGrouped(intPart);
    var trimmed := TrimEnd(fracPart, '0');
    if trimmed != [] {
      out := out + "." + trimmed;
    }
  }

  /**
   * For `int.frac` text: the integer part is grouped, the fraction loses its
   * trailing zeros, and a '.' appears exactly when a non-zero fraction digit
   * remains.
   */
  lemma FloatCountShape(intPart: string, frac: string, truncText: string)
    requires '.' !in intPart
    ensures FloatCountText(intPart + "." + frac, truncText) ==
      Grouped(intPart) + (if TrimEnd(frac, '0') != [] then "." + TrimEnd(frac, '0') else "")
    ensures '.' in FloatCountText(intPart + "." + frac, truncText) <==>
      exists i :: 0 <= i < |frac| && frac[i] != '0'
  {
    var num := intPart + "." + frac;
    SplitOnceAt(intPart, frac, '.');
    var trimmed := TrimEnd(frac, '0');
    var out := FloatCountText(num, truncText);
    if trimmed != [] {
      assert out[|Grouped(intPart)|] == '.';
      assert frac[|trimmed| - 1] != '0';
    } else {
      assert out == Grouped(intPart);
      if '.' in out {
        GroupedChars(intPart, 0, '.');
      }
    }
  }

  /** Text with no `c` before a `c` splits right there. */
  lemma {:induction false} SplitOnceAt(a: string, b: string, c: char)
    requires c !in a
    ensures SplitOnce(a + [c] + b, c) == Some((a, b))
    decreases |a|
  {
    if a == [] {
      assert a + [c] + b == [c] + b;
    } else {
      var s := a + [c] + b;
      assert s[0] == a[0] != c;
      assert s[1..] == a[1..] + [c] + b;
      SplitOnceAt(a[1..], b, c);
      assert [a[0]] + a[1..] == a;
    }
  }

  /** 1234.5 reads "1,234.5". */
  lemma FloatCountFractionExample(num: string, truncText: string)
    requires num == "1234.5000"
    ensures FloatCountText(num, truncText) == "1,234.5"
  {
    assert "1234" + "." + "5000" == num;
    FloatCountShape("1234", "5000", truncText);
    TrimEndExample();
    GroupedExample();
  }

  /** Trailing zeros of "5000" go, the '5' stays. */
  lemma TrimEndExample()
    ensures TrimEnd("5000", '0') == "5"
  {
    assert "5000"[..3] == "500" && "500"[..2] == "50" && "50"[..1] == "5";
  }

  /** Four digits take one separator after the first. */
  lemma GroupedExample()
    ensures Grouped("1234") == "1,234"
  {
    GroupedIsGroupRight("1234");
    assert "1234"[..1] == "1" && "1234"[1..] == "234";
  }

  /** 1000.0 reads "1,000": an all-zero fraction leaves no '.'. */
  lemma FloatCountWholeExample(num: string, truncText: string)
    requires num == "1000.0000"
    ensures FloatCountText(num, truncText) == "1,000"
  {
    assert "1000" + "." + "0000" == num;
    FloatCountShape("1000", "0000", truncText);
    TrimEndZerosExample();
    GroupedZerosExample();
  }

  /** "0000" loses every character. */
  lemma TrimEndZerosExample()
    ensures TrimEnd("0000", '0') == []
  {
    assert "0000"[..3] == "000" && "000"[..2] == "00" && "00"[..1] == "0" && "0"[..0] == [];
  }

  /** Zeros are grouped like any other digit. */
  lemma GroupedZerosExample()
    ensures Grouped("1000") == "1,000"
  {
    GroupedIsGroupRight("1000");
    assert "1000"[..1] == "1" && "1000"[1..] == "000";
  }
}
