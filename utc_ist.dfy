/**
  The two conversion effects of the widget. Each effect parses, shifts by
  5.5 hours and formats in one zone (UTC, or Asia/Kolkata), so whatever
  offset that zone has on the selected date cancels out, and "parse at the
  selected date, add or subtract 5.5 hours, format as HH:mm" is a shift of
  the minute of the day by 330, wrapped into one day. The calendar date
  therefore never enters the result; the model does not cover the rare dates
  on which an Asia/Kolkata offset change falls inside the shifted 5.5 hours.
 */
module UtcIst {
  import opened TimeText

  /** +5:30, the fixed offset of India Standard Time, in minutes. */
  const IST_OFFSET_MINUTES: int := 330

  /** The time of day `delta` minutes after t, wrapped into 00:00..23:59. */
  function ShiftClock(t: string, delta: int): (r: string)
    requires IsClock(t)
    ensures IsClock(r)
    ensures ClockMinutes(r) == (ClockMinutes(t) + delta) % MINUTES_PER_DAY
  {
    var m := (ClockMinutes(t) + delta) % MINUTES_PER_DAY;
    ClockMinutesOfFormat(m);
    FormatTime(m)
  }

  /** The IST time of day shown for a UTC time of day. */
  function UtcToIst(utcTime: string): (istTime: string)
    requires IsClock(utcTime)
    ensures IsClock(istTime)
    ensures ClockMinutes(istTime) == (ClockMinutes(utcTime) + IST_OFFSET_MINUTES) % MINUTES_PER_DAY
  {
    ShiftClock(utcTime, IST_OFFSET_MINUTES)
  }

  /** The UTC time of day shown for an IST time of day. */
  function IstToUtc(istTime: string): (utcTime: string)
    requires IsClock(istTime)
    ensures IsClock(utcTime)
    ensures ClockMinutes(utcTime) == (ClockMinutes(istTime) - IST_OFFSET_MINUTES) % MINUTES_PER_DAY
  {
    ShiftClock(istTime, -IST_OFFSET_MINUTES)
  }

  /** Shifting by delta and then by -delta returns the starting time. */
  lemma ShiftBack(t: string, delta: int)
    requires IsClock(t)
    ensures ShiftClock(ShiftClock(t, delta), -delta) == t
  {
    var m := ClockMinutes(t);
    var shifted := ShiftClock(t, delta);
    var r := ShiftClock(shifted, -delta);
    assert ClockMinutes(r) == m by {
      assert ClockMinutes(shifted) == (m + delta) % MINUTES_PER_DAY;
      ModShiftBack(m, delta);
    }
    FormatOfClockMinutes(t);
    FormatOfClockMinutes(r);
  }

  lemma ModShiftBack(m: int, delta: int)
    requires 0 <= m < MINUTES_PER_DAY
    ensures ((m + delta) % MINUTES_PER_DAY - delta) % MINUTES_PER_DAY == m
  {
    var q := (m + delta) / MINUTES_PER_DAY;
    assert (m + delta) % MINUTES_PER_DAY == m + delta - q * MINUTES_PER_DAY;
    assert ((m + delta) % MINUTES_PER_DAY - delta) == m + (-q) * MINUTES_PER_DAY;
    ModMultiple(m, -q);
  }

  /** Shifting two different minutes of a day by the same amount gives different minutes. */
  lemma ModShiftInjective(m: int, n: int, delta: int)
    requires 0 <= m < MINUTES_PER_DAY && 0 <= n < MINUTES_PER_DAY && m != n
    ensures (m + delta) % MINUTES_PER_DAY != (n + delta) % MINUTES_PER_DAY
  {
    ModShiftBack(m, delta);
    ModShiftBack(n, delta);
  }

  lemma ModMultiple(m: int, k: int)
    requires 0 <= m < MINUTES_PER_DAY
    ensures (m + k * MINUTES_PER_DAY) % MINUTES_PER_DAY == m
  {
  }

  /** UTC -> IST -> UTC is the identity. */
  lemma IstToUtcUndoesUtcToIst(utcTime: string)
    requires IsClock(utcTime)
    ensures IstToUtc(UtcToIst(utcTime)) == utcTime
  {
    ShiftBack(utcTime, IST_OFFSET_MINUTES);
  }

  /** IST -> UTC -> IST is the identity. */
  lemma UtcToIstUndoesIstToUtc(istTime: string)
    requires IsClock(istTime)
    ensures UtcToIst(IstToUtc(istTime)) == istTime
  {
    ShiftBack(istTime, -IST_OFFSET_MINUTES);
  }

  /**
    The two effects agree on a pair of times in both directions: the IST
    effect would produce istTime from utcTime exactly when the UTC effect
    would produce utcTime from istTime.
   */
  lemma ConversionsAgree(utcTime: string, istTime: string)
    requires IsClock(utcTime) && IsClock(istTime)
    ensures istTime == UtcToIst(utcTime) <==> utcTime == IstToUtc(istTime)
  {
    IstToUtcUndoesUtcToIst(utcTime);
    UtcToIstUndoesIstToUtc(istTime);
  }

  /** A UTC edit to a different time gives a different IST time, whose UTC conversion is the edit. */
  lemma NewUtcGivesNewIst(oldUtc: string, newUtc: string)
    requires IsClock(oldUtc) && IsClock(newUtc) && newUtc != oldUtc
    ensures UtcToIst(newUtc) != UtcToIst(oldUtc)
    ensures IstToUtc(UtcToIst(newUtc)) == newUtc
  {
    IstToUtcUndoesUtcToIst(oldUtc);
    IstToUtcUndoesUtcToIst(newUtc);
  }

  /** An IST edit to a different time gives a different UTC time, whose IST conversion is the edit. */
  lemma NewIstGivesNewUtc(oldIst: string, newIst: string)
    requires IsClock(oldIst) && IsClock(newIst) && newIst != oldIst
    ensures IstToUtc(newIst) != IstToUtc(oldIst)
    ensures UtcToIst(IstToUtc(newIst)) == newIst
  {
    UtcToIstUndoesIstToUtc(oldIst);
    UtcToIstUndoesIstToUtc(newIst);
  }

  /** An IST time before 05:30 belongs to the previous UTC day: its UTC time is 18:30 later in the day. */
  lemma IstToUtcWrapsBelowMidnight(istTime: string)
    requires IsClock(istTime) && ClockMinutes(istTime) < IST_OFFSET_MINUTES
    ensures ClockMinutes(IstToUtc(istTime)) == ClockMinutes(istTime) + MINUTES_PER_DAY - IST_OFFSET_MINUTES
  {
    ModMultiple(ClockMinutes(istTime) + MINUTES_PER_DAY - IST_OFFSET_MINUTES, -1);
  }

  /** A UTC time from 18:30 on is shown in IST on the next day, 18:30 earlier in the day. */
  lemma UtcToIstWrapsPastMidnight(utcTime: string)
    requires IsClock(utcTime) && ClockMinutes(utcTime) >= MINUTES_PER_DAY - IST_OFFSET_MINUTES
    ensures ClockMinutes(UtcToIst(utcTime)) == ClockMinutes(utcTime) + IST_OFFSET_MINUTES - MINUTES_PER_DAY
  {
    ModMultiple(ClockMinutes(utcTime) + IST_OFFSET_MINUTES - MINUTES_PER_DAY, 1);
  }

  /** A shift lands on the well-formed time whose minute of the day is the shifted minute. */
  lemma ShiftClockTo(t: string, delta: int, s: string)
    requires IsClock(t) && IsClock(s)
    requires ClockMinutes(s) == (ClockMinutes(t) + delta) % MINUTES_PER_DAY
    ensures ShiftClock(t, delta) == s
  {
    FormatOfClockMinutes(s);
    FormatOfClockMinutes(ShiftClock(t, delta));
  }

  /** UTC 09:00 is IST 14:30. */
  lemma UtcNineIsIstHalfPastTwo()
    ensures UtcToIst("09:00") == "14:30"
  {
    assert ClockMinutes("09:00") == 540;
    assert ClockMinutes("14:30") == 870;
    ShiftClockTo("09:00", IST_OFFSET_MINUTES, "14:30");
  }

  /** IST 01:30 (slider position 90) is UTC 20:00 of the previous day. */
  lemma IstHalfPastOneIsUtcTwenty()
    ensures FormatTime(90) == "01:30"
    ensures IstToUtc(FormatTime(90)) == "20:00"
  {
    assert ClockMinutes("01:30") == 90;
    FormatOfClockMinutes("01:30");
    assert ClockMinutes("20:00") == 1200;
    ShiftClockTo("01:30", -IST_OFFSET_MINUTES, "20:00");
  }
}
