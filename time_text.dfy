/**
  Wall-clock times of day as the widget writes them: five-character `HH:mm`
  strings. `FormatTime` is the slider handler's minute-to-text mapping,
  `SliderValue` is `getSliderValue`, which splits the text on ':' and reads
  both fields with JavaScript's `Number`.
 */
module TimeText {

  datatype Option<T> = None | Some(value: T)

  const MINUTES_PER_DAY: int := 1440
  const MINUTES_PER_HOUR: int := 60

  predicate IsDigit(c: char) {
    '0' <= c <= '9'
  }

  function DigitVal(c: char): (d: int)
    requires IsDigit(c)
    ensures 0 <= d < 10
  {
    c as int - '0' as int
  }

  function DigitChar(d: int): (c: char)
    requires 0 <= d < 10
    ensures IsDigit(c) && DigitVal(c) == d
  {
    ('0' as int + d) as char
  }

  /** The value of a two-digit field written `ab`. */
  function TwoDigits(a: char, b: char): (n: int)
    requires IsDigit(a) && IsDigit(b)
    ensures 0 <= n < 100
  {
    DigitVal(a) * 10 + DigitVal(b)
  }

  /** A zero-padded two-digit rendering of n, as moment's `HH` and `mm` tokens give. */
  function Pad2(n: int): (r: string)
    requires 0 <= n < 100
    ensures |r| == 2 && IsDigit(r[0]) && IsDigit(r[1]) && TwoDigits(r[0], r[1]) == n
  {
    [DigitChar(n / 10), DigitChar(n % 10)]
  }

  /** A well-formed time of day: `HH:mm` with HH in 00..23 and mm in 00..59. */
  predicate IsClock(s: string) {
    && |s| == 5
    && IsDigit(s[0]) && IsDigit(s[1]) && s[2] == ':' && IsDigit(s[3]) && IsDigit(s[4])
    && TwoDigits(s[0], s[1]) < 24
    && TwoDigits(s[3], s[4]) < MINUTES_PER_HOUR
  }

  /** The minute of the day that a well-formed `HH:mm` denotes. */
  function ClockMinutes(s: string): (m: int)
    requires IsClock(s)
    ensures 0 <= m < MINUTES_PER_DAY
    ensures m / MINUTES_PER_HOUR == TwoDigits(s[0], s[1])
    ensures m % MINUTES_PER_HOUR == TwoDigits(s[3], s[4])
  {
    TwoDigits(s[0], s[1]) * MINUTES_PER_HOUR + TwoDigits(s[3], s[4])
  }

  /**
    The slider handler's mapping from a minute of the day to text: hours are
    v div 60, minutes v mod 60, both zero-padded.
   */
  function FormatTime(v: int): (r: string)
    requires 0 <= v < MINUTES_PER_DAY
    ensures IsClock(r)
    ensures TwoDigits(r[0], r[1]) == v / MINUTES_PER_HOUR
    ensures TwoDigits(r[3], r[4]) == v % MINUTES_PER_HOUR
  {
    Pad2(v / MINUTES_PER_HOUR) + ":" + Pad2(v % MINUTES_PER_HOUR)
  }

  /** Reading a formatted minute back gives the same minute. */
  lemma ClockMinutesOfFormat(v: int)
    requires 0 <= v < MINUTES_PER_DAY
    ensures ClockMinutes(FormatTime(v)) == v
  {
    var r := FormatTime(v);
    assert ClockMinutes(r) == (v / MINUTES_PER_HOUR) * MINUTES_PER_HOUR + v % MINUTES_PER_HOUR;
  }

  /** Formatting the minute a well-formed time denotes gives the same text. */
  lemma FormatOfClockMinutes(s: string)
    requires IsClock(s)
    ensures FormatTime(ClockMinutes(s)) == s
  {
    var m := ClockMinutes(s);
    var r := FormatTime(m);
    DigitsDetermined(r[0], r[1], s[0], s[1]);
    DigitsDetermined(r[3], r[4], s[3], s[4]);
    assert r[2] == s[2];
  }

  /** A well-formed time is determined by the minute it denotes. */
  lemma ClockTextDetermined(s: string, t: string)
    requires IsClock(s) && IsClock(t) && ClockMinutes(s) == ClockMinutes(t)
    ensures s == t
  {
    FormatOfClockMinutes(s);
    FormatOfClockMinutes(t);
  }

  /** Two two-digit fields of equal value are the same characters. */
  lemma DigitsDetermined(a: char, b: char, c: char, d: char)
    requires IsDigit(a) && IsDigit(b) && IsDigit(c) && IsDigit(d)
    requires TwoDigits(a, b) == TwoDigits(c, d)
    ensures a == c && b == d
  {
    assert DigitVal(a) == DigitVal(c);
  }

  /** formatting is one-to-one on the minutes of a day */
  lemma FormatInjective(v: int, w: int)
    requires 0 <= v < MINUTES_PER_DAY && 0 <= w < MINUTES_PER_DAY
    ensures FormatTime(v) == FormatTime(w) <==> v == w
  {
    if FormatTime(v) == FormatTime(w) {
      ClockMinutesOfFormat(v);
      ClockMinutesOfFormat(w);
    }
  }

  // ---------------------------------------------------------------------------
  // String.prototype.split(':') and Number(...)
  // ---------------------------------------------------------------------------

  /** Index of the first ':' in s. */
  function FirstColon(s: string): (i: nat)
    requires ':' in s
    ensures i < |s| && s[i] == ':' && ':' !in s[..i]
  {
    if s[0] == ':' then 0
    else
      assert ':' in s[1..] by { var k :| 0 <= k < |s| && s[k] == ':'; assert s[1..][k - 1] == ':'; }
      var j := FirstColon(s[1..]);
      assert s[..j + 1] == [s[0]] + s[1..][..j];
      j + 1
  }

  /** The fields joined back with ':' (the inverse of split). */
  function JoinColon(fields: seq<string>): (s: string)
    requires |fields| >= 1
    ensures fields[0] <= s
  {
    if |fields| == 1 then fields[0] else fields[0] + ":" + JoinColon(fields[1..])
  }

  /**
    `s.split(':')`: the maximal colon-free fields of s, in order; there is
    always at least one field and joining them with ':' gives s back.
   */
  function SplitColon(s: string): (fields: seq<string>)
    ensures |fields| >= 1
    ensures forall k :: 0 <= k < |fields| ==> ':' !in fields[k]
    ensures JoinColon(fields) == s
    decreases |s|
  {
    if ':' !in s then [s]
    else
      var i := FirstColon(s);
      var rest := SplitColon(s[i + 1..]);
      var fields := [s[..i]] + rest;
      assert fields[1..] == rest;
      assert s == s[..i] + ":" + s[i + 1..];
      fields
  }

  /** Splitting text that was joined from colon-free fields gives those fields. */
  lemma {:induction false} SplitColonOfJoin(fields: seq<string>)
    requires |fields| >= 1
    requires forall k :: 0 <= k < |fields| ==> ':' !in fields[k]
    ensures SplitColon(JoinColon(fields)) == fields
  {
    var s := JoinColon(fields);
    if |fields| > 1 {
      var a := fields[0];
      var tail := JoinColon(fields[1..]);
      assert s == a + ":" + tail;
      assert s[|a|] == ':';
      var i := FirstColon(s);
      assert forall k :: 0 <= k < |a| ==> s[k] == a[k];
      assert i == |a|;
      assert s[..i] == a;
      assert s[i + 1..] == tail;
      SplitColonOfJoin(fields[1..]);
      assert [a] + fields[1..] == fields;
    }
  }

  predicate AllDigits(s: string) {
    forall k :: 0 <= k < |s| ==> IsDigit(s[k])
  }

  /** The decimal value of a string of digits (0 for the empty string). */
  function DigitsValue(s: string): (n: nat)
    requires AllDigits(s)
  {
    if |s| == 0 then 0 else DigitsValue(s[..|s| - 1]) * 10 + DigitVal(s[|s| - 1])
  }

  /**
    JavaScript's `Number(field)` on a split field: the empty string reads as 0,
    a string of decimal digits as its value, anything else as NaN (None).
   */
  function NumberOf(s: string): (r: Option<nat>)
    ensures r.Some? <==> AllDigits(s)
    ensures s == "" ==> r == Some(0)
    ensures |s| == 2 && AllDigits(s) ==> r == Some(TwoDigits(s[0], s[1]))
  {
    if AllDigits(s) then
      if |s| == 2 then TwoDigitsValue(s); Some(DigitsValue(s)) else Some(DigitsValue(s))
    else None
  }

  /**
    `getSliderValue(time)`: `hours * 60 + minutes` from the first two fields of
    `time.split(':')`; a missing second field (undefined) or a field that is not
    a number makes the result NaN (None).
   */
  function SliderValue(time: string): (r: Option<int>)
    ensures r.Some? ==> ':' in time && r.value >= 0
  {
    var fields := SplitColon(time);
    assert |fields| >= 2 ==> time[|fields[0]|] == ':' by {
      if |fields| >= 2 { assert time == fields[0] + ":" + JoinColon(fields[1..]); }
    }
    var hours := NumberOf(fields[0]);
    var minutes := if |fields| >= 2 then NumberOf(fields[1]) else None;
    if hours.Some? && minutes.Some? then Some(hours.value * MINUTES_PER_HOUR + minutes.value) else None
  }

  lemma TwoDigitsValue(s: string)
    requires |s| == 2 && IsDigit(s[0]) && IsDigit(s[1])
    ensures AllDigits(s) && DigitsValue(s) == TwoDigits(s[0], s[1])
  {
    assert s[..1][..0] == [];
    assert DigitsValue(s[..1]) == DigitVal(s[0]);
  }

  /** The slider position of a well-formed time is the minute it denotes, in 0..1439. */
  lemma SliderValueOfClock(s: string)
    requires IsClock(s)
    ensures SliderValue(s) == Some(ClockMinutes(s))
    ensures 0 <= SliderValue(s).value < MINUTES_PER_DAY
  {
    var hh, mm := s[..2], s[3..];
    assert ':' !in hh by { assert forall k :: 0 <= k < 2 ==> hh[k] == s[k]; }
    assert ':' !in mm by { assert forall k :: 0 <= k < 2 ==> mm[k] == s[k + 3]; }
    assert [hh, mm][1..] == [mm];
    assert JoinColon([hh, mm]) == hh + ":" + mm;
    assert s == hh + ":" + mm;
    SplitColonOfJoin([hh, mm]);
    TwoDigitsValue(hh);
    TwoDigitsValue(mm);
  }

  /** getSliderValue undoes the slider handler's formatting, for every slider position. */
  lemma SliderValueOfFormat(v: int)
    requires 0 <= v < MINUTES_PER_DAY
    ensures SliderValue(FormatTime(v)) == Some(v)
  {
    SliderValueOfClock(FormatTime(v));
    ClockMinutesOfFormat(v);
  }

  /** Text with no ':' has no minutes field, so getSliderValue yields NaN. */
  lemma SliderValueWithoutColon(s: string)
    requires ':' !in s
    ensures SliderValue(s) == None
  {
  }
}
