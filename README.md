# UTC to IST converter: a verified model of its state

The widget shows two clocks, UTC and India Standard Time (IST). Each clock is
a `HH:mm` text cell with a slider of 1440 positions, one per minute of the
day. A date picker chooses the reference date. The zone cards can be
reordered by drag and drop. Whenever one time changes, the other one is
recomputed. Each conversion parses the time, shifts it by 5.5 hours and
formats it again in one zone (UTC for the IST effect, Asia/Kolkata for the
UTC effect), so whatever offset that zone has on the selected date cancels
out. Each conversion is therefore a shift of the minute of the day by 330,
wrapped into one day, and the selected date never changes a time of day.

This project models that state in Dafny and proves properties of it. There
are four modules:

- `TimeText` (`time_text.dfy`) covers `HH:mm` text. `FormatTime` is the
  slider handler's mapping from a minute to text. `SliderValue` is
  `getSliderValue`, modelled with JavaScript's `split(':')` (`SplitColon`) and
  `Number` (`NumberOf`, with NaN as `None`). The lemmas prove the round trips
  between minutes and text.
- `UtcIst` (`utc_ist.dfy`) covers the two conversion effects, `UtcToIst` and
  `IstToUtc`. The lemmas prove that each undoes the other, how they wrap
  around midnight, and two concrete examples.
- `Zones` (`zones.dfy`) covers the zone entries and the two-entry list that
  the rebuild effect writes. `Moved` is the list after `onDragEnd`'s two
  `splice` calls. The lemmas prove that a move is a permutation, where every
  entry ends up, and that dragging back restores the list. They also prove
  that any order of the table is mutually consistent and has unique ids.
- `Converter` (`converter.dfy`) holds the class `TimeZoneConverter`. Its
  fields are the component's state cells (`selectedDate`, `utcTime`,
  `istTime`, `timezones`). Each effect and each handler is a method. Every
  handler requires and keeps `Valid()`. `Valid()` says both times are well-formed, neither
  conversion effect would change them, and the list is a permutation of the
  table. The module also models a commit in which both conversion effects
  fire together. That model shows what goes wrong when the two times
  disagree (see Findings).

A handler writes its cell and then runs the dependent effects in order. The
methods prove that the cascade stops after one round. After a UTC edit, the
IST effect yields a new IST time. The UTC effect that this triggers yields
the UTC time that was just set, so nothing changes after that. Writing a
value a cell already holds does not re-render in React, so no effect runs
and an earlier reorder survives. A date change always runs the effects,
because the date picker delivers a new `Date` object each time. It then
rebuilds the list in table order.

The component has only the UTC and IST entries. The city text field (lines
115-120) has no handler, so there is no operation that adds, looks up or
rejects a zone. Propagation is just the two effects between the two cells.

## Model

| member | source | states |
|---|---|---|
| `TimeText.FormatTime` | timezone-converter/src/components/TimeZoneConverter.js:54-58 | a slider value v in 0..1439 becomes a well-formed `HH:mm` whose hour field reads v div 60 and whose minute field reads v mod 60 |
| `TimeText.ClockMinutes` | timezone-converter/src/components/TimeZoneConverter.js:67-70 | a well-formed `HH:mm` denotes a minute in 0..1439 whose quotient and remainder by 60 are its two fields |
| `TimeText.ClockMinutesOfFormat` | timezone-converter/src/components/TimeZoneConverter.js:54-70 | reading back a formatted slider value gives that value |
| `TimeText.FormatOfClockMinutes` | timezone-converter/src/components/TimeZoneConverter.js:54-70 | formatting the minute of a well-formed `HH:mm` gives the same text |
| `TimeText.FormatInjective` | timezone-converter/src/components/TimeZoneConverter.js:54-58 | two slider values give the same text exactly when they are equal |
| `TimeText.SplitColon` | timezone-converter/src/components/TimeZoneConverter.js:68 | `split(':')` gives at least one field, no field contains ':', and joining the fields with ':' gives the input back |
| `TimeText.SplitColonOfJoin` | timezone-converter/src/components/TimeZoneConverter.js:68 | splitting text joined from colon-free fields gives exactly those fields |
| `TimeText.NumberOf` | timezone-converter/src/components/TimeZoneConverter.js:68 | `Number` of a field is a number exactly when the field is all decimal digits; the empty field reads as 0 and a two-digit field as its two-digit value |
| `TimeText.SliderValue` | timezone-converter/src/components/TimeZoneConverter.js:67-70 | `getSliderValue` gives a number only for text that holds a ':', and that number is never negative; its values on well-formed and colon-free text are given by the three lemmas below |
| `TimeText.SliderValueOfClock` | timezone-converter/src/components/TimeZoneConverter.js:67-70 | `getSliderValue` of a well-formed `HH:mm` is hours * 60 + minutes and lies in 0..1439 |
| `TimeText.SliderValueOfFormat` | timezone-converter/src/components/TimeZoneConverter.js:54-70 | `getSliderValue` undoes the slider handler's formatting for every position 0..1439 |
| `TimeText.SliderValueWithoutColon` | timezone-converter/src/components/TimeZoneConverter.js:68-69 | text without ':' has no minutes field (undefined), so the result is NaN |
| `UtcIst.ShiftClock` | timezone-converter/src/components/TimeZoneConverter.js:20-33 | shifting a time of day by delta minutes and formatting it gives a well-formed time whose minute is (minute + delta) mod 1440 |
| `UtcIst.UtcToIst` | timezone-converter/src/components/TimeZoneConverter.js:20-25 | the IST effect gives a well-formed time whose minute is (UTC minute + 330) mod 1440, for any selected date |
| `UtcIst.IstToUtc` | timezone-converter/src/components/TimeZoneConverter.js:28-33 | the UTC effect gives a well-formed time whose minute is (IST minute - 330) mod 1440, wrapping below midnight |
| `UtcIst.ShiftBack` | timezone-converter/src/components/TimeZoneConverter.js:20-33 | shifting by delta and then by -delta returns the starting text |
| `UtcIst.IstToUtcUndoesUtcToIst` | timezone-converter/src/components/TimeZoneConverter.js:20-33 | UTC to IST to UTC returns the starting time |
| `UtcIst.UtcToIstUndoesIstToUtc` | timezone-converter/src/components/TimeZoneConverter.js:20-33 | IST to UTC to IST returns the starting time |
| `UtcIst.NewUtcGivesNewIst` | timezone-converter/src/components/TimeZoneConverter.js:20-33 | a different UTC time gives a different IST time, whose UTC conversion is the UTC time again |
| `UtcIst.NewIstGivesNewUtc` | timezone-converter/src/components/TimeZoneConverter.js:20-33 | a different IST time gives a different UTC time, whose IST conversion is the IST time again |
| `UtcIst.ConversionsAgree` | timezone-converter/src/components/TimeZoneConverter.js:20-33 | for two well-formed times, the IST effect maps u to i exactly when the UTC effect maps i to u |
| `UtcIst.IstToUtcWrapsBelowMidnight` | timezone-converter/src/components/TimeZoneConverter.js:28-33 | an IST time before 05:30 gives the UTC time 18:30 later in the day (the previous UTC day) |
| `UtcIst.UtcToIstWrapsPastMidnight` | timezone-converter/src/components/TimeZoneConverter.js:20-25 | a UTC time from 18:30 on gives the IST time 18:30 earlier in the day (the next IST day) |
| `UtcIst.UtcNineIsIstHalfPastTwo` | timezone-converter/src/components/TimeZoneConverter.js:20-25 | UTC 09:00 is shown as IST 14:30 |
| `UtcIst.IstHalfPastOneIsUtcTwenty` | timezone-converter/src/components/TimeZoneConverter.js:28-33 | IST slider position 90 is 01:30, which is shown as UTC 20:00 |
| `Zones.Table` | timezone-converter/src/components/TimeZoneConverter.js:36-39 | the rebuilt list has two entries with distinct ids: first the entry at offset 0 showing the UTC cell, then the entry at offset 330 showing the IST cell |
| `Zones.TableRows` | timezone-converter/src/components/TimeZoneConverter.js:36-39 | the first entry has id `utc` and name `UTC`, the second id `ist` and name `IST` (the ids used as drag handles and the names that choose each card's controls) |
| `Zones.UtcIstEntriesConsistent` | timezone-converter/src/components/TimeZoneConverter.js:35-40 | the UTC entry and the IST entry of a UTC time and its conversion are consistent with each other's offsets in both directions |
| `Zones.TableConsistent` | timezone-converter/src/components/TimeZoneConverter.js:35-40 | the rebuilt list is mutually consistent (each entry's time is every other entry's time plus the offset difference, mod one day) and has distinct ids |
| `Zones.ReorderedTableConsistent` | timezone-converter/src/components/TimeZoneConverter.js:35-40 | every order of the rebuilt list's entries is still mutually consistent with distinct ids |
| `Zones.RemoveAt` | timezone-converter/src/components/TimeZoneConverter.js:76 | `splice(i, 1)` shortens the list by one: entries before i stay in place and every later entry moves down one index |
| `Zones.InsertAt` | timezone-converter/src/components/TimeZoneConverter.js:77 | `splice(i, 0, x)` lengthens the list by one: entries before i stay in place, x sits at i and every later entry moves up one index |
| `Zones.Moved` | timezone-converter/src/components/TimeZoneConverter.js:75-77 | a drag from one valid index to another keeps the list's length |
| `Zones.MovedIsPermutation` | timezone-converter/src/components/TimeZoneConverter.js:75-79 | the reordered list has the same entries with the same multiplicities, none altered |
| `Zones.MovedPlacesEntry` | timezone-converter/src/components/TimeZoneConverter.js:76-77 | the dragged entry ends at the destination index |
| `Zones.MovedKeepsOrderOfOthers` | timezone-converter/src/components/TimeZoneConverter.js:76-77 | without the dragged entry, the reordered list equals the old list without it, so the other entries keep their relative order |
| `Zones.MovedAt` | timezone-converter/src/components/TimeZoneConverter.js:76-77 | the entry at each index after the move: the dragged one at the destination, the ones in between shifted by one place, the rest in place |
| `Zones.MovedBack` | timezone-converter/src/components/TimeZoneConverter.js:75-79 | dragging the entry back from the destination to the source restores the list |
| `Zones.MovedInPlace` | timezone-converter/src/components/TimeZoneConverter.js:75-79 | dropping an entry at its own index changes nothing |
| `Converter.TimeZoneConverter.constructor` | timezone-converter/src/components/TimeZoneConverter.js:10-16 | mounting at a UTC minute gives that UTC time, IST = (minute + 330) mod 1440 and the table, in a valid state |
| `Converter.TimeZoneConverter.SyncIstFromUtc` | timezone-converter/src/components/TimeZoneConverter.js:20-25 | the IST cell becomes the conversion of the UTC cell; reports whether it changed |
| `Converter.TimeZoneConverter.SyncUtcFromIst` | timezone-converter/src/components/TimeZoneConverter.js:28-33 | the UTC cell becomes the conversion of the IST cell; reports whether it changed |
| `Converter.TimeZoneConverter.RebuildTimezones` | timezone-converter/src/components/TimeZoneConverter.js:35-40 | the list becomes exactly `[utc entry, ist entry]`, dropping any reorder |
| `Converter.TimeZoneConverter.EffectsAfterUtcEdit` | timezone-converter/src/components/TimeZoneConverter.js:20-40 | once the UTC cell holds a new time, the IST effect gives a new IST time, the UTC effect it triggers gives the UTC time back unchanged, and the list is rebuilt |
| `Converter.TimeZoneConverter.EffectsAfterIstEdit` | timezone-converter/src/components/TimeZoneConverter.js:20-40 | once the IST cell holds a new time, the UTC effect gives a new UTC time, the IST effect it triggers gives the IST time back unchanged, and the list is rebuilt |
| `Converter.TimeZoneConverter.HandleDateChange` | timezone-converter/src/components/TimeZoneConverter.js:42-44 | a new date leaves both times unchanged, rebuilds the list in table order and keeps the state valid |
| `Converter.TimeZoneConverter.HandleUtcTimeChange` | timezone-converter/src/components/TimeZoneConverter.js:46-48 | after a UTC edit the UTC cell holds the edit, IST is its conversion, one round of the effects leaves both unchanged, and the list is rebuilt unless the value was already there |
| `Converter.TimeZoneConverter.HandleIstTimeChange` | timezone-converter/src/components/TimeZoneConverter.js:50-52 | after an IST edit the IST cell holds the edit, UTC is its conversion, one round of the effects leaves both unchanged, and the list is rebuilt unless the value was already there |
| `Converter.TimeZoneConverter.HandleSliderChange` | timezone-converter/src/components/TimeZoneConverter.js:54-65 | the formatted slider value goes only to the cell named by `timezone` (the other cell follows by conversion); any other name changes nothing |
| `Converter.TimeZoneConverter.Tick` | timezone-converter/src/components/TimeZoneConverter.js:82-85 | the minute timer sets the UTC cell to the given clock minute, with IST following |
| `Converter.TimeZoneConverter.OnDragEnd` | timezone-converter/src/components/TimeZoneConverter.js:72-80 | no destination leaves the list unchanged; otherwise the list becomes the move of the old list and the state stays valid |
| `Converter.TimeZoneConverter.SliderPositions` | timezone-converter/src/components/TimeZoneConverter.js:173-194 | the rendered slider positions are the two cells' minutes, 330 apart mod 1440 |
| `Converter.ValidListIsConsistent` | timezone-converter/src/components/TimeZoneConverter.js:35-40 | in every valid state the list is mutually consistent and no id occurs twice |
| `Converter.CommitBoth` | timezone-converter/src/components/TimeZoneConverter.js:20-33 | when both effects fire in one commit, a settled pair is left as it is and an unsettled pair has both cells changed |
| `Converter.UnsettledCommitOscillates` | timezone-converter/src/components/TimeZoneConverter.js:20-33 | an unsettled pair is replaced by another unsettled pair, and the next such commit restores the first |
| `Converter.MountCells` | timezone-converter/src/components/TimeZoneConverter.js:11-12 | the mount writes the UTC text for the first clock reading's minute and the IST text for (second reading + 330) mod 1440 |
| `Converter.TwoReadingsNeverSettle` | timezone-converter/src/components/TimeZoneConverter.js:11-33 | two clock readings in different minutes give an unsettled pair that the mount commit and every later commit swap back and forth |
| `Converter.OneReadingSettles` | timezone-converter/src/components/TimeZoneConverter.js:11-33 | cells made from a single reading are settled, and a commit of both effects leaves them as they are |
| `Converter.StraddledMinuteOscillates` | timezone-converter/src/components/TimeZoneConverter.js:11-33 | readings 09:00 and 09:01 give 09:00 / 14:31, then 09:01 / 14:30, then 09:00 / 14:31 again |

## Left out

- Rendering (lines 90-221): JSX, Material-UI, the date picker widget, the icon buttons without handlers, the dark-mode toggle, colours, and the GMT and date labels. These are presentation only.
- moment and moment-timezone: each conversion is replaced by integer arithmetic with the 330-minute shift. The selected date is an opaque `Date` that no result depends on, because each effect parses and formats in the same zone, so any offset that holds over the whole 5.5 hours cancels. The UTC effect (lines 29-31) differs from the model only when an Asia/Kolkata offset change falls within the 5.5 hours before the entered IST time: the local-mean-time changes of 1854, 1870 and 1906-01-01 and the wartime changes of 1941-10-01, 1942-05-15, 1942-09-01 and 1945-10-15 (on 1945-10-15, IST 00:30 gives "20:00" in the source and "19:00" here). Such dates are not modelled.
- Offsets are whole minutes (0 and 330), not the hours 0 and 5.5 that the source stores and shows.
- The timer (lines 82-88): `Tick` takes the current UTC minute as a parameter. Reading the real clock, `setInterval` and the `clearInterval` cleanup on unmount are not modelled.
- Adding a city: the text field has no handler in the source, so no add, lookup or duplicate rejection exists to model.
- React scheduling: each handler runs its effects one after another. Each effect reads the cells as the previous step left them. Only `CommitBoth` models two effects reading the same render's values. The same final state results whenever the cells were settled before the edit. The intermediate render, after the IST effect but before the UTC effect, briefly lists the new UTC time with the old IST time; it is not modelled.
- Converter.TimeZoneConverter.HandleUtcTimeChange: requires a well-formed `HH:mm`. Clearing the time field gives an empty string. That case is not modelled.
- Converter.TimeZoneConverter.HandleIstTimeChange: requires a well-formed `HH:mm`. IST has no text field (line 198 only displays it), and the only caller is the slider handler, whose text is always well-formed.
- Converter.TimeZoneConverter.HandleDateChange: takes a `Date`. The date picker's input field is editable (line 128), and clearing it makes react-datepicker report `null`; the effects then format `moment(null)` as "Invalid date" and parse that with the time, so the cells do not keep their times. A cleared date is not modelled.
- Converter.TimeZoneConverter.HandleSliderChange: requires a slider value in 0..1439, which the range input's `min`/`max` (lines 170-172) guarantee.
- Converter.TimeZoneConverter.OnDragEnd: requires both indices to lie within the list, which the drag-and-drop library guarantees. `splice` with a negative or out-of-range index is not modelled.
- TimeText.FormatTime: the source builds the slider's text with `moment().hours(h).minutes(m)` (line 58), on today's date in the browser's local time zone. On a local spring-forward day an hour inside the gap is moved forward (in America/New_York on 2026-03-08, position 150 gives "03:30", not "02:30"). The model formats every position as if no gap existed, so `SliderValueOfFormat` and `FormatInjective` hold for the model's formatting but not for the source on such days.
- TimeText.NumberOf: models `Number` only for the empty string and plain decimal digits. Surrounding whitespace, signs, decimal points, exponents, hexadecimal and `Infinity` are read as NaN here, though JavaScript accepts them. A digit string is read exactly, while JavaScript rounds values above 2^53 to the nearest double (`Number("9007199254740993")` is 9007199254740992); this matters only for text that is not a well-formed time.
- Converter.TimeZoneConverter.constructor: models the corrected mount, which takes a single clock reading (see Findings). The mount as written is `Converter.MountCells`.

## Findings

| source | as written | input that shows it | evidently intended | confidence | as-written member | corrected member |
|---|---|---|---|---|---|---|
| timezone-converter/src/components/TimeZoneConverter.js:11-12 | the UTC and IST cells come from two separate clock readings, and on mount both conversion effects fire in the same commit, each reading that render's values | UTC read at the end of minute 09:00 and IST read just after (09:01 UTC = 14:31 IST): the cells are 09:00 / 14:31, the mount commit makes them 09:01 / 14:30, the next 09:00 / 14:31, and so on without end | derive the IST cell from the same reading as the UTC cell, so the mount state is already settled | not executed; medium (needs the two reads to straddle a minute boundary) | `Converter.TwoReadingsNeverSettle` | `Converter.TimeZoneConverter.constructor` |

`Converter.StraddledMinuteOscillates` shows the concrete sequence.
`Converter.OneReadingSettles` proves that one reading gives settled cells.
The corrected constructor starts in a valid state. Every handler of the
class keeps that state valid.
