/**
  The widget's state cells and the handlers and effects that update them.
  `selectedDate`, `utcTime`, `istTime` and `timezones` are the component's
  `useState` cells. Each handler is a method that writes one cell and then
  runs, in order, the effects whose dependencies changed. A state update to
  the value a cell already holds does not re-render, so it runs no effect.
 */
module Converter {
  import opened TimeText
  import opened UtcIst
  import opened Zones

  /** The calendar date of the date picker. Each effect parses and formats in one zone, so that zone's offset on this date cancels and no time of day depends on it. */
  datatype Date = Date(year: int, month: int, day: int)

  /** What the drag-and-drop library reports when a drag ends: the source index and, unless the drag was cancelled, the destination index. */
  datatype DropResult = DropResult(sourceIndex: int, destination: Option<int>)

  class TimeZoneConverter {
    var selectedDate: Date
    var utcTime: string
    var istTime: string
    var timezones: seq<ZoneEntry>

    /**
      Both times are well-formed. Neither conversion effect would change them.
      The second of those two conjuncts follows from the first by
      `IstToUtcUndoesUtcToIst`; it is spelled out so that each handler's proof
      has both directions at hand. The list holds the table's two entries, in the table's order or in the
      order a drag left them.
     */
    ghost predicate Valid()
      reads this
    {
      && IsClock(utcTime) && IsClock(istTime)
      && istTime == UtcToIst(utcTime)
      && utcTime == IstToUtc(istTime)
      && multiset(timezones) == multiset(Table(utcTime, istTime))
    }

    /**
      Mounting at the UTC minute `nowUtcMinute` of the day `today`. The IST
      cell is derived from the same clock reading (see the Findings section of
      the README for why two separate readings go wrong). The mount effects then
      change neither time and write the table.
     */
    constructor (nowUtcMinute: int, today: Date)
      requires 0 <= nowUtcMinute < MINUTES_PER_DAY
      ensures Valid()
      ensures selectedDate == today
      ensures utcTime == FormatTime(nowUtcMinute)
      ensures istTime == FormatTime((nowUtcMinute + IST_OFFSET_MINUTES) % MINUTES_PER_DAY)
      ensures timezones == Table(utcTime, istTime)
    {
      var utc := FormatTime(nowUtcMinute);
      ClockMinutesOfFormat(nowUtcMinute);
      IstToUtcUndoesUtcToIst(utc);
      selectedDate := today;
      utcTime := utc;
      istTime := UtcToIst(utc);
      timezones := Table(utc, UtcToIst(utc));
    }

    /** The effect that recomputes the IST cell from the UTC cell; `changed` tells whether the cell took a new value. */
    method SyncIstFromUtc() returns (changed: bool)
      requires IsClock(utcTime)
      modifies this`istTime
      ensures istTime == UtcToIst(utcTime)
      ensures changed <==> istTime != old(istTime)
    {
      var newIstTime := UtcToIst(utcTime);
      changed := newIstTime != istTime;
      istTime := newIstTime;
    }

    /** The effect that recomputes the UTC cell from the IST cell; `changed` tells whether the cell took a new value. */
    method SyncUtcFromIst() returns (changed: bool)
      requires IsClock(istTime)
      modifies this`utcTime
      ensures utcTime == IstToUtc(istTime)
      ensures changed <==> utcTime != old(utcTime)
    {
      var newUtcTime := IstToUtc(istTime);
      changed := newUtcTime != utcTime;
      utcTime := newUtcTime;
    }

    /** The effect that rebuilds the list from the two times, dropping any earlier reordering. */
    method RebuildTimezones()
      modifies this`timezones
      ensures timezones == Table(utcTime, istTime)
    {
      timezones := Table(utcTime, istTime);
    }

    /** A new reference date: both conversion effects run, neither changes a time, and the list is rebuilt. */
    method HandleDateChange(date: Date)
      requires Valid()
      modifies this
      ensures Valid()
      ensures selectedDate == date
      ensures utcTime == old(utcTime) && istTime == old(istTime)
      ensures timezones == Table(utcTime, istTime)
    {
      selectedDate := date;
      var istChanged := SyncIstFromUtc();
      var utcChanged := SyncUtcFromIst();
      assert !istChanged && !utcChanged;
      RebuildTimezones();
    }

    /**
      An edit of the UTC time. The IST effect recomputes IST. The UTC effect
      that this triggers gives back the same UTC time, so the cascade stops
      after one round.
     */
    method HandleUtcTimeChange(newUtcTime: string)
      requires Valid() && IsClock(newUtcTime)
      modifies this
      ensures Valid()
      ensures utcTime == newUtcTime && istTime == UtcToIst(newUtcTime)
      ensures selectedDate == old(selectedDate)
      ensures newUtcTime == old(utcTime) ==> timezones == old(timezones)
      ensures newUtcTime != old(utcTime) ==> timezones == Table(utcTime, istTime)
    {
      if newUtcTime == utcTime {
        return;
      }
      NewUtcGivesNewIst(utcTime, newUtcTime);
      utcTime := newUtcTime;
      EffectsAfterUtcEdit();
    }

    /**
      The effects that run once the UTC cell holds a new time: the IST effect
      recomputes IST, which is new, so the UTC effect fires too; it gives back
      the UTC time just set, so nothing further renders. Then the list is rebuilt.
     */
    method EffectsAfterUtcEdit()
      requires IsClock(utcTime) && istTime != UtcToIst(utcTime)
      requires IstToUtc(UtcToIst(utcTime)) == utcTime
      modifies this`istTime, this`timezones, this`utcTime
      ensures utcTime == old(utcTime) && istTime == UtcToIst(utcTime)
      ensures timezones == Table(utcTime, istTime)
    {
      var istChanged := SyncIstFromUtc();
      assert istChanged;  // a new UTC time always gives a new IST time, so the UTC effect fires again
      var utcChanged := SyncUtcFromIst();
      assert !utcChanged;  // and gives back the UTC time just set: no further render
      RebuildTimezones();
    }

    /**
      An edit of the IST time. The UTC effect recomputes UTC. The IST effect
      that this triggers gives back the same IST time, so the cascade stops
      after one round.
     */
    method HandleIstTimeChange(newIstTime: string)
      requires Valid() && IsClock(newIstTime)
      modifies this
      ensures Valid()
      ensures istTime == newIstTime && utcTime == IstToUtc(newIstTime)
      ensures selectedDate == old(selectedDate)
      ensures newIstTime == old(istTime) ==> timezones == old(timezones)
      ensures newIstTime != old(istTime) ==> timezones == Table(utcTime, istTime)
    {
      if newIstTime == istTime {
        return;
      }
      NewIstGivesNewUtc(istTime, newIstTime);
      istTime := newIstTime;
      EffectsAfterIstEdit();
    }

    /**
      The effects that run once the IST cell holds a new time: the UTC effect
      recomputes UTC, which is new, so the IST effect fires too; it gives back
      the IST time just set, so nothing further renders. Then the list is rebuilt.
     */
    method EffectsAfterIstEdit()
      requires IsClock(istTime) && utcTime != IstToUtc(istTime)
      requires UtcToIst(IstToUtc(istTime)) == istTime
      modifies this`istTime, this`timezones, this`utcTime
      ensures istTime == old(istTime) && utcTime == IstToUtc(istTime)
      ensures timezones == Table(utcTime, istTime)
    {
      var utcChanged := SyncUtcFromIst();
      assert utcChanged;  // a new IST time always gives a new UTC time, so the IST effect fires again
      var istChanged := SyncIstFromUtc();
      assert !istChanged;  // and gives back the IST time just set: no further render
      RebuildTimezones();
    }

    /**
      A slider moved to `sliderValue` minutes. The handler formats the value
      as HH:mm and hands it to the cell named by `timezone`. A slider naming
      any other zone changes nothing.
     */
    method HandleSliderChange(sliderValue: int, timezone: string)
      requires Valid() && 0 <= sliderValue < MINUTES_PER_DAY
      modifies this
      ensures Valid()
      ensures selectedDate == old(selectedDate)
      ensures timezone == "utc" ==> utcTime == FormatTime(sliderValue) && istTime == UtcToIst(utcTime)
      ensures timezone == "ist" ==> istTime == FormatTime(sliderValue) && utcTime == IstToUtc(istTime)
      ensures timezone != "utc" && timezone != "ist" ==>
                utcTime == old(utcTime) && istTime == old(istTime) && timezones == old(timezones)
      ensures timezone == "utc" && utcTime == old(utcTime) ==> timezones == old(timezones)
      ensures timezone == "utc" && utcTime != old(utcTime) ==> timezones == Table(utcTime, istTime)
      ensures timezone == "ist" && istTime == old(istTime) ==> timezones == old(timezones)
      ensures timezone == "ist" && istTime != old(istTime) ==> timezones == Table(utcTime, istTime)
    {
      var newTime := FormatTime(sliderValue);
      if timezone == "utc" {
        HandleUtcTimeChange(newTime);
      } else if timezone == "ist" {
        HandleIstTimeChange(newTime);
      }
    }

    /** The minute timer: sets the UTC cell to the clock's current UTC minute, as an edit of the UTC time would. */
    method Tick(nowUtcMinute: int)
      requires Valid() && 0 <= nowUtcMinute < MINUTES_PER_DAY
      modifies this
      ensures Valid()
      ensures utcTime == FormatTime(nowUtcMinute) && istTime == UtcToIst(utcTime)
      ensures selectedDate == old(selectedDate)
      ensures utcTime == old(utcTime) ==> timezones == old(timezones)
      ensures utcTime != old(utcTime) ==> timezones == Table(utcTime, istTime)
    {
      HandleUtcTimeChange(FormatTime(nowUtcMinute));
    }

    /**
      The end of a drag. A drag without a destination changes nothing.
      Otherwise the entry at the source index moves to the destination index
      and the times stay as they are.
     */
    method OnDragEnd(result: DropResult)
      requires Valid()
      requires result.destination.Some? ==>
                 0 <= result.sourceIndex < |timezones| && 0 <= result.destination.value < |timezones|
      modifies this`timezones
      ensures Valid()
      ensures result.destination.None? ==> timezones == old(timezones)
      ensures result.destination.Some? ==>
                timezones == Moved(old(timezones), result.sourceIndex, result.destination.value)
    {
      if result.destination.None? {
        return;
      }
      var items := timezones;
      var reorderedItem := items[result.sourceIndex];
      items := RemoveAt(items, result.sourceIndex);
      items := InsertAt(items, result.destination.value, reorderedItem);
      MovedIsPermutation(timezones, result.sourceIndex, result.destination.value);
      timezones := items;
    }

    /** The slider positions rendered for the two zones: getSliderValue of each cell. */
    method SliderPositions() returns (utcPosition: Option<int>, istPosition: Option<int>)
      requires Valid()
      ensures utcPosition == Some(ClockMinutes(utcTime)) && istPosition == Some(ClockMinutes(istTime))
      ensures istPosition.value == (utcPosition.value + IST_OFFSET_MINUTES) % MINUTES_PER_DAY
    {
      utcPosition := SliderValue(utcTime);
      istPosition := SliderValue(istTime);
      PairedSliderValues(utcTime, istTime, utcPosition, istPosition);
    }
  }

  /** The slider positions of a UTC time and its IST conversion are their minutes, 330 apart. */
  lemma PairedSliderValues(utcTime: string, istTime: string, utcPosition: Option<int>, istPosition: Option<int>)
    requires IsClock(utcTime) && IsClock(istTime) && istTime == UtcToIst(utcTime)
    requires utcPosition == SliderValue(utcTime) && istPosition == SliderValue(istTime)
    ensures utcPosition == Some(ClockMinutes(utcTime)) && istPosition == Some(ClockMinutes(istTime))
    ensures istPosition.value == (utcPosition.value + IST_OFFSET_MINUTES) % MINUTES_PER_DAY
  {
    SliderValueOfClock(utcTime);
    SliderValueOfClock(istTime);
  }

  /** In every valid state every pair of entries is consistent and no id occurs twice. */
  lemma ValidListIsConsistent(c: TimeZoneConverter)
    requires c.Valid()
    ensures MutuallyConsistent(c.timezones) && UniqueIds(c.timezones)
  {
    ReorderedTableConsistent(c.timezones, c.utcTime);
  }

  // ---------------------------------------------------------------------------
  // A commit in which both conversion effects fire
  // ---------------------------------------------------------------------------

  /** The two time cells as one render sees them. */
  datatype TimeCells = TimeCells(utcTime: string, istTime: string)

  predicate Settled(cells: TimeCells)
    requires IsClock(cells.utcTime) && IsClock(cells.istTime)
  {
    cells.istTime == UtcToIst(cells.utcTime)
  }

  /**
    The cells after a commit in which both conversion effects fire, as on mount
    or while both cells keep changing. Each effect reads the values of the
    render it belongs to, not the value the other effect has just set.
   */
  function CommitBoth(cells: TimeCells): (next: TimeCells)
    requires IsClock(cells.utcTime) && IsClock(cells.istTime)
    ensures IsClock(next.utcTime) && IsClock(next.istTime)
    ensures Settled(cells) ==> next == cells
    ensures !Settled(cells) ==> next.utcTime != cells.utcTime && next.istTime != cells.istTime
  {
    var next := TimeCells(IstToUtc(cells.istTime), UtcToIst(cells.utcTime));
    ConversionsAgree(cells.utcTime, cells.istTime);
    IstToUtcUndoesUtcToIst(cells.utcTime);
    UtcToIstUndoesIstToUtc(cells.istTime);
    next
  }

  /** An unsettled pair of cells is swapped for another unsettled pair, which the next commit swaps back: the cells never settle. */
  lemma UnsettledCommitOscillates(cells: TimeCells)
    requires IsClock(cells.utcTime) && IsClock(cells.istTime) && !Settled(cells)
    ensures !Settled(CommitBoth(cells))
    ensures CommitBoth(CommitBoth(cells)) == cells
  {
    var next := CommitBoth(cells);
    ConversionsAgree(next.utcTime, next.istTime);
    UtcToIstUndoesIstToUtc(cells.istTime);
    IstToUtcUndoesUtcToIst(cells.utcTime);
  }

  /**
    The two time cells as the mount writes them: the UTC cell from one clock
    reading and the IST cell from a second, later one, each formatted as HH:mm.
   */
  function MountCells(utcReading: int, istReading: int): (cells: TimeCells)
    requires 0 <= utcReading < MINUTES_PER_DAY && 0 <= istReading < MINUTES_PER_DAY
    ensures IsClock(cells.utcTime) && IsClock(cells.istTime)
    ensures ClockMinutes(cells.utcTime) == utcReading
    ensures ClockMinutes(cells.istTime) == (istReading + IST_OFFSET_MINUTES) % MINUTES_PER_DAY
  {
    var istMinute := (istReading + IST_OFFSET_MINUTES) % MINUTES_PER_DAY;
    ClockMinutesOfFormat(utcReading);
    ClockMinutesOfFormat(istMinute);
    TimeCells(FormatTime(utcReading), FormatTime(istMinute))
  }

  /** When the two readings fall in different minutes, the mount leaves the cells unsettled and they swap back and forth forever. */
  lemma TwoReadingsNeverSettle(utcReading: int, istReading: int)
    requires 0 <= utcReading < MINUTES_PER_DAY && 0 <= istReading < MINUTES_PER_DAY
    requires utcReading != istReading
    ensures !Settled(MountCells(utcReading, istReading))
    ensures CommitBoth(CommitBoth(MountCells(utcReading, istReading))) == MountCells(utcReading, istReading)
  {
    var cells := MountCells(utcReading, istReading);
    ModShiftInjective(utcReading, istReading, IST_OFFSET_MINUTES);
    assert ClockMinutes(UtcToIst(cells.utcTime)) != ClockMinutes(cells.istTime);
    UnsettledCommitOscillates(cells);
  }

  /** A single reading used for both cells gives settled cells, which a commit of both effects leaves as they are. */
  lemma OneReadingSettles(nowUtcMinute: int)
    requires 0 <= nowUtcMinute < MINUTES_PER_DAY
    ensures Settled(MountCells(nowUtcMinute, nowUtcMinute))
    ensures CommitBoth(MountCells(nowUtcMinute, nowUtcMinute)) == MountCells(nowUtcMinute, nowUtcMinute)
  {
    var cells := MountCells(nowUtcMinute, nowUtcMinute);
    ClockMinutesOfFormat(nowUtcMinute);
    FormatOfClockMinutes(cells.istTime);
    FormatOfClockMinutes(UtcToIst(cells.utcTime));
  }

  /** UTC read at 09:00 and IST read a minute later, at 09:01 UTC, which is 14:31 IST. */
  lemma StraddledMount()
    ensures MountCells(540, 541) == TimeCells("09:00", "14:31")
  {
    var cells := MountCells(540, 541);
    assert ClockMinutes("09:00") == 540;
    assert ClockMinutes("14:31") == 871;
    ClockTextDetermined(cells.utcTime, "09:00");
    ClockTextDetermined(cells.istTime, "14:31");
  }

  lemma Ist1431IsUtc0901()
    ensures IstToUtc("14:31") == "09:01"
  {
    assert ClockMinutes("14:31") == 871;
    assert ClockMinutes("09:01") == 541;
    ShiftClockTo("14:31", -IST_OFFSET_MINUTES, "09:01");
  }

  /** The mount commit on 09:00 / 14:31 gives 09:01 / 14:30. */
  lemma StraddledCommit()
    ensures CommitBoth(TimeCells("09:00", "14:31")) == TimeCells("09:01", "14:30")
  {
    Ist1431IsUtc0901();
    UtcNineIsIstHalfPastTwo();
  }

  /** The straddled mount: 09:00 / 14:31, then 09:01 / 14:30, then 09:00 / 14:31 again. */
  lemma StraddledMinuteOscillates()
    ensures CommitBoth(MountCells(540, 541)) == TimeCells("09:01", "14:30")
    ensures CommitBoth(CommitBoth(MountCells(540, 541))) == MountCells(540, 541)
  {
    StraddledMount();
    StraddledCommit();
    TwoReadingsNeverSettle(540, 541);
  }
}
