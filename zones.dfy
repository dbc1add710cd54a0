/**
  The ordered list of zone entries the widget renders: the two-entry table
  that the rebuild effect writes, the consistency of its times, and the
  drag-and-drop move that `onDragEnd` performs with two `splice` calls.
 */
module Zones {
  import opened TimeText
  import opened UtcIst

  /** One row of the dashboard; the offset from UTC is kept in whole minutes (+5.5 h is 330). */
  datatype ZoneEntry = ZoneEntry(id: string, name: string, offsetMinutes: int, time: string)

  /** The UTC row: offset 0, showing the UTC cell. */
  function UtcEntry(utcTime: string): (e: ZoneEntry) {
    ZoneEntry("utc", "UTC", 0, utcTime)
  }

  /** The IST row: offset +5:30, showing the IST cell. */
  function IstEntry(istTime: string): (e: ZoneEntry) {
    ZoneEntry("ist", "IST", IST_OFFSET_MINUTES, istTime)
  }

  /** The list the rebuild effect writes: UTC first, then IST. */
  function Table(utcTime: string, istTime: string): (zones: seq<ZoneEntry>)
    ensures |zones| == 2 && UniqueIds(zones)
    ensures zones[0].time == utcTime && zones[0].offsetMinutes == 0
    ensures zones[1].time == istTime && zones[1].offsetMinutes == IST_OFFSET_MINUTES
  {
    assert "utc" != "ist" by { assert "utc"[0] != "ist"[0]; }
    [UtcEntry(utcTime), IstEntry(istTime)]
  }

  /**
    The ids and names of the two rows, which the rendering uses as the
    drag handle's id and to choose between the UTC and the IST controls.
   */
  lemma TableRows(utcTime: string, istTime: string)
    ensures Table(utcTime, istTime)[0].id == "utc" && Table(utcTime, istTime)[0].name == "UTC"
    ensures Table(utcTime, istTime)[1].id == "ist" && Table(utcTime, istTime)[1].name == "IST"
  {
  }

  predicate UniqueIds(zones: seq<ZoneEntry>) {
    forall j, k :: 0 <= j < k < |zones| ==> zones[j].id != zones[k].id
  }

  predicate AllClocks(zones: seq<ZoneEntry>) {
    forall j :: 0 <= j < |zones| ==> IsClock(zones[j].time)
  }

  /** Entry b shows the same instant as entry a: a's time plus the offset difference, wrapped into a day. */
  predicate Consistent(a: ZoneEntry, b: ZoneEntry)
    requires IsClock(a.time) && IsClock(b.time)
  {
    ClockMinutes(b.time) == (ClockMinutes(a.time) + b.offsetMinutes - a.offsetMinutes) % MINUTES_PER_DAY
  }

  /** Every pair of entries shows offsets of one instant. */
  predicate MutuallyConsistent(zones: seq<ZoneEntry>) {
    && AllClocks(zones)
    && forall j, k :: 0 <= j < |zones| && 0 <= k < |zones| ==> Consistent(zones[j], zones[k])
  }

  /** Every entry is consistent with itself. */
  lemma ConsistentWithSelf(a: ZoneEntry)
    requires IsClock(a.time)
    ensures Consistent(a, a)
  {
    ModMultiple(ClockMinutes(a.time), 0);
  }

  /** The UTC and IST entries of a UTC time and its conversion are consistent in both directions. */
  lemma UtcIstEntriesConsistent(utcTime: string)
    requires IsClock(utcTime)
    ensures Consistent(UtcEntry(utcTime), IstEntry(UtcToIst(utcTime)))
    ensures Consistent(IstEntry(UtcToIst(utcTime)), UtcEntry(utcTime))
  {
    ModShiftBack(ClockMinutes(utcTime), IST_OFFSET_MINUTES);
  }

  /** The table rebuilt from a UTC time and its IST conversion is mutually consistent and has distinct ids. */
  lemma TableConsistent(utcTime: string)
    requires IsClock(utcTime)
    ensures MutuallyConsistent(Table(utcTime, UtcToIst(utcTime)))
    ensures UniqueIds(Table(utcTime, UtcToIst(utcTime)))
  {
    var zones := Table(utcTime, UtcToIst(utcTime));
    UtcIstEntriesConsistent(utcTime);
    ConsistentWithSelf(zones[0]);
    ConsistentWithSelf(zones[1]);
    assert "utc" != "ist" by { assert "utc"[0] != "ist"[0]; }
  }

  /** A list with the same entries as a two-entry list is that list in one of its two orders. */
  lemma TwoEntryPermutation(zones: seq<ZoneEntry>, a: ZoneEntry, b: ZoneEntry)
    requires multiset(zones) == multiset([a, b])
    ensures zones == [a, b] || zones == [b, a]
  {
    assert |zones| == |multiset(zones)| == 2;
    assert zones[0] in multiset(zones) && zones[1] in multiset(zones);
    assert zones == [zones[0], zones[1]];
    if zones[0] == a {
      assert multiset([zones[1]]) == multiset(zones) - multiset{a};
    } else {
      assert zones[0] == b;
      assert multiset([zones[1]]) == multiset(zones) - multiset{b};
    }
  }

  /** Any order of the rebuilt table is still consistent and free of duplicate ids. */
  lemma ReorderedTableConsistent(zones: seq<ZoneEntry>, utcTime: string)
    requires IsClock(utcTime)
    requires multiset(zones) == multiset(Table(utcTime, UtcToIst(utcTime)))
    ensures MutuallyConsistent(zones) && UniqueIds(zones)
  {
    var t := Table(utcTime, UtcToIst(utcTime));
    TableConsistent(utcTime);
    TwoEntryPermutation(zones, t[0], t[1]);
    if zones != t {
      assert zones == [t[1], t[0]];
      assert forall j :: 0 <= j < 2 ==> zones[j] == t[1 - j];
    }
  }

  // ---------------------------------------------------------------------------
  // Reordering: items.splice(from, 1) then items.splice(to, 0, moved)
  // ---------------------------------------------------------------------------

  /** `items.splice(i, 1)`: the list without its i-th entry. */
  function RemoveAt<T>(s: seq<T>, i: nat): (r: seq<T>)
    requires i < |s|
    ensures |r| == |s| - 1
    ensures forall k :: 0 <= k < i ==> r[k] == s[k]
    ensures forall k :: i <= k < |r| ==> r[k] == s[k + 1]
  {
    s[..i] + s[i + 1..]
  }

  /** `items.splice(i, 0, x)`: the list with x inserted so that it sits at index i. */
  function InsertAt<T>(s: seq<T>, i: nat, x: T): (r: seq<T>)
    requires i <= |s|
    ensures |r| == |s| + 1
    ensures forall k :: 0 <= k < i ==> r[k] == s[k]
    ensures r[i] == x
    ensures forall k :: i < k < |r| ==> r[k] == s[k - 1]
  {
    s[..i] + [x] + s[i..]
  }

  /** The list after dragging the entry at index `from` to index `to`. */
  function Moved<T>(s: seq<T>, from: nat, to: nat): (r: seq<T>)
    requires from < |s| && to < |s|
    ensures |r| == |s|
  {
    InsertAt(RemoveAt(s, from), to, s[from])
  }

  /** A move is a permutation: the same entries, each as often as before, none altered. */
  lemma MovedIsPermutation<T>(s: seq<T>, from: nat, to: nat)
    requires from < |s| && to < |s|
    ensures multiset(Moved(s, from, to)) == multiset(s)
  {
    var rest := RemoveAt(s, from);
    assert s == s[..from] + [s[from]] + s[from + 1..];
    assert multiset(s) == multiset(s[..from]) + multiset([s[from]]) + multiset(s[from + 1..]);
    assert multiset(rest) == multiset(s[..from]) + multiset(s[from + 1..]);
    assert rest == rest[..to] + rest[to..];
    assert multiset(rest) == multiset(rest[..to]) + multiset(rest[to..]);
    assert multiset(s) == multiset(rest) + multiset([s[from]]);
    assert Moved(s, from, to) == rest[..to] + [s[from]] + rest[to..];
    assert multiset(Moved(s, from, to)) == multiset(rest[..to]) + multiset([s[from]]) + multiset(rest[to..]);
  }

  /** After the move, the dragged entry sits at the destination index. */
  lemma MovedPlacesEntry<T>(s: seq<T>, from: nat, to: nat)
    requires from < |s| && to < |s|
    ensures Moved(s, from, to)[to] == s[from]
  {
  }

  /** Taking the dragged entry out again leaves the other entries in their old relative order. */
  lemma MovedKeepsOrderOfOthers<T>(s: seq<T>, from: nat, to: nat)
    requires from < |s| && to < |s|
    ensures RemoveAt(Moved(s, from, to), to) == RemoveAt(s, from)
  {
    var rest := RemoveAt(s, from);
    var r := Moved(s, from, to);
    assert r[..to] == rest[..to];
    assert r[to + 1..] == rest[to..];
  }

  /** Where every entry ends up: entries between the two indices shift by one place towards `from`. */
  lemma MovedAt<T>(s: seq<T>, from: nat, to: nat, k: nat)
    requires from < |s| && to < |s| && k < |s|
    ensures Moved(s, from, to)[k] ==
      if k == to then s[from]
      else if from < to && from <= k < to then s[k + 1]
      else if to < from && to < k <= from then s[k - 1]
      else s[k]
  {
  }

  /** Dragging the entry back to where it came from restores the list. */
  lemma MovedBack<T>(s: seq<T>, from: nat, to: nat)
    requires from < |s| && to < |s|
    ensures Moved(Moved(s, from, to), to, from) == s
  {
    var r := Moved(Moved(s, from, to), to, from);
    forall k | 0 <= k < |s|
      ensures r[k] == s[k]
    {
      MovedAt(Moved(s, from, to), to, from, k);
      var j := if k == from then to
               else if to < from && to <= k < from then k + 1
               else if from < to && from < k <= to then k - 1
               else k;
      MovedAt(s, from, to, j);
    }
  }

  /** Dropping an entry onto its own place changes nothing. */
  lemma MovedInPlace<T>(s: seq<T>, i: nat)
    requires i < |s|
    ensures Moved(s, i, i) == s
  {
    assert s == s[..i] + [s[i]] + s[i + 1..];
  }
}
