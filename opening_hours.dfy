/**
 * Whether a pub is open at a given moment, decided from its weekly table of
 * free-text opening hours. `OpenAt` is the specification; `IsCurrentlyOpen` is
 * the loop over the day's ranges that decides it.
 */
module OpeningHours {
  import opened Wrappers
  import opened Text
  import opened HoursPattern

  type Weekday = d: nat | d < 7
  type Hour = h: nat | h < 24
  type Minute = m: nat | m < 60

  /** The local time of the run: weekday (Sunday is 0), hour and minute. */
  datatype Moment = Moment(day: Weekday, hour: Hour, minute: Minute)

  /** A pub's weekly hours: lower-case day name to free text such as "12:00pm - 11:00pm". */
  type Schedule = map<string, string>

  const DayNames: seq<string> :=
    ["sunday", "monday", "tuesday", "wednesday", "thursday", "friday", "saturday"]

  function MinuteOfDay(now: Moment): (t: nat)
    ensures t < 24 * 60
  {
    now.hour * 60 + now.minute
  }

  /** The day's entry, when it is there and not empty (an empty string is falsy). */
  function TodaysHours(table: Schedule, now: Moment): Option<string> {
    var today := DayNames[now.day];
    if today in table && table[today] != "" then Some(table[today]) else None
  }

  // ---------------------------------------------------------------------------
  // One range: the 12-hour correction and the window of minutes it opens
  // ---------------------------------------------------------------------------

  /**
   * The hours of a matched range after the afternoon correction, which applies
   * when the range text mentions "pm" anywhere.
   */
  function AdjustedHours(m: Match, pm: bool): (nat, nat) {
    var openHour := if pm && m.openHour < 12 then m.openHour + 12 else m.openHour;
    var closeHour := if pm && m.closeHour < 12 && m.closeHour != openHour then m.closeHour + 12 else m.closeHour;
    (openHour, closeHour)
  }

  /**
   * Without "pm" nothing changes: there is no correction for "am", and an hour
   * of 12 or more is never touched. With "pm" an hour below 12 gains exactly
   * 12, so both hours end up at 12 or later at their own position on the
   * 12-hour clock; the close hour moves even when it equals the original open
   * hour, because the adjusted open hour it is compared with is at least 12.
   */
  lemma PmCorrection(m: Match, pm: bool)
    ensures var h := AdjustedHours(m, pm);
            (!pm ==> h == (m.openHour, m.closeHour))
            && (pm ==> h.0 >= 12 && h.0 % 12 == m.openHour % 12)
            && (pm ==> h.1 >= 12 && h.1 % 12 == m.closeHour % 12)
            && (pm && m.closeHour < 12 ==> h.1 == m.closeHour + 12)
            && (pm && m.openHour < 12 ==> h.0 == m.openHour + 12)
            && (m.openHour >= 12 ==> h.0 == m.openHour)
            && (m.closeHour >= 12 ==> h.1 == m.closeHour)
  {
  }

  /** Opening and closing minute of the day; a closing minute of 0 stands for the end of the day. */
  datatype Window = Window(open: nat, close: nat)

  function WindowOf(m: Match, pm: bool): (w: Window)
    ensures w.close > 0
    ensures var h := AdjustedHours(m, pm); w.open == h.0 * 60 + m.openMinute
    ensures var h := AdjustedHours(m, pm); h.1 * 60 + m.closeMinute == 0 ==> w.close == 24 * 60
    ensures var h := AdjustedHours(m, pm); h.1 * 60 + m.closeMinute != 0 ==> w.close == h.1 * 60 + m.closeMinute
  {
    var (openHour, closeHour) := AdjustedHours(m, pm);
    var closeTime := closeHour * 60 + m.closeMinute;
    Window(openHour * 60 + m.openMinute, if closeTime == 0 then 24 * 60 else closeTime)
  }

  /** Both ends count; a window that closes before it opens runs past midnight. */
  predicate Covers(w: Window, t: nat) {
    if w.close < w.open then t >= w.open || t <= w.close else w.open <= t <= w.close
  }

  /** The day's entry split on commas, each piece trimmed. */
  function Ranges(entry: string): seq<string>
  {
    var pieces := Split(entry, ',');
    seq(|pieces|, k requires 0 <= k < |pieces| => Trim(pieces[k]))
  }

  /** A range opens the pub at `now` when it matches the pattern and its window covers now. */
  predicate RangeOpenAt(range: string, now: Moment) {
    match Search(range)
    case None => false
    case Some(m) => Covers(WindowOf(m, Includes(Lower(range), "pm")), MinuteOfDay(now))
  }

  /** Some range of `ranges` opens the pub at `now`, tried front to back. */
  predicate AnyRangeOpenAt(ranges: seq<string>, now: Moment)
    decreases |ranges|
  {
    |ranges| > 0 && (RangeOpenAt(ranges[0], now) || AnyRangeOpenAt(ranges[1..], now))
  }

  /** Trying the ranges front to back finds one exactly when one exists. */
  lemma {:induction false} AnyRangeOpenAtIff(ranges: seq<string>, now: Moment)
    ensures AnyRangeOpenAt(ranges, now) <==> SomeRangeOpenAt(ranges, now)
    decreases |ranges|
  {
    if |ranges| > 0 {
      AnyRangeOpenAtIff(ranges[1..], now);
      if exists k :: 0 <= k < |ranges| && RangeOpenAt(ranges[k], now) {
        var k :| 0 <= k < |ranges| && RangeOpenAt(ranges[k], now);
        if k > 0 {
          assert ranges[1..][k - 1] == ranges[k];
        }
      }
      if AnyRangeOpenAt(ranges[1..], now) {
        var k :| 0 <= k < |ranges[1..]| && RangeOpenAt(ranges[1..][k], now);
        assert ranges[k + 1] == ranges[1..][k];
      }
    }
  }

  // ---------------------------------------------------------------------------
  // The whole decision
  // ---------------------------------------------------------------------------

  /** Some range of `ranges` opens the pub at `now`. */
  ghost predicate SomeRangeOpenAt(ranges: seq<string>, now: Moment) {
    exists k :: 0 <= k < |ranges| && RangeOpenAt(ranges[k], now)
  }

  /**
   * A day's non-empty entry opens the pub at `now` unless it reads "closed" in
   * any letter case; otherwise one of its ranges has to cover the current minute.
   */
  ghost predicate EntryOpenAt(entry: string, now: Moment) {
    Lower(entry) != "closed" && SomeRangeOpenAt(Ranges(entry), now)
  }

  /**
   * No table at all means open. A missing or empty entry for today means
   * closed; otherwise today's entry decides.
   */
  ghost predicate OpenAt(hours: Option<Schedule>, now: Moment) {
    match hours
    case None => true
    case Some(table) =>
      match TodaysHours(table, now)
      case None => false
      case Some(entry) => EntryOpenAt(entry, now)
  }

  /** `isCurrentlyOpen`: look up today's entry, then try its ranges. */
  method IsCurrentlyOpen(openingHours: Option<Schedule>, now: Moment) returns (open: bool)
    ensures open == OpenAt(openingHours, now)
  {
    if openingHours.None? {
      return true;
    }
    var todayHours := TodaysHours(openingHours.value, now);
    if todayHours.None? || Lower(todayHours.value) == "closed" {
      return false;
    }
    var timeRanges := Ranges(todayHours.value);
    open := FirstOpenRange(timeRanges, now);
    AnyRangeOpenAtIff(timeRanges, now);
  }

  /**
   * The loop of `isCurrentlyOpen` over the day's ranges: skip a range that does
   * not match, correct its hours for "pm", and stop at the first whose window
   * covers the current minute.
   */
  method FirstOpenRange(timeRanges: seq<string>, now: Moment) returns (open: bool)
    ensures open == AnyRangeOpenAt(timeRanges, now)
  {
    ghost var expected := AnyRangeOpenAt(timeRanges, now);
    var i := 0;
    while i < |timeRanges|
      invariant 0 <= i <= |timeRanges|
      invariant expected == AnyRangeOpenAt(timeRanges[i..], now)
    {
      assert timeRanges[i..][1..] == timeRanges[i + 1..];
      var range := timeRanges[i];
      var found := Search(range);
      if found.Some? {
        var m := found.value;
        var pm := Includes(Lower(range), "pm");
        var openHour, closeHour := m.openHour, m.closeHour;
        if pm && openHour < 12 {
          openHour := openHour + 12;
        }
        if pm && closeHour < 12 && closeHour != openHour {
          closeHour := closeHour + 12;
        }
        var currentTime := now.hour * 60 + now.minute;
        var openTime := openHour * 60 + m.openMinute;
        var closeTime := closeHour * 60 + m.closeMinute;
        if closeTime == 0 {
          closeTime := 24 * 60;
        }
        assert Window(openTime, closeTime) == WindowOf(m, pm);
        if closeTime < openTime {
          if currentTime >= openTime || currentTime <= closeTime {
            return true;
          }
        } else {
          if currentTime >= openTime && currentTime <= closeTime {
            return true;
          }
        }
      }
      i := i + 1;
    }
    return false;
  }

  // ---------------------------------------------------------------------------
  // Properties of the decision
  // ---------------------------------------------------------------------------

  /** A pub without a table is open at every moment. */
  lemma NoScheduleMeansOpen(now: Moment)
    ensures OpenAt(None, now)
  {
  }

  /** A missing or empty entry, or "closed" in any case, means closed all day. */
  lemma ClosedDayMeansClosed(table: Schedule, now: Moment)
    requires var today := DayNames[now.day];
             today !in table || table[today] == "" || Lower(table[today]) == "closed"
    ensures !OpenAt(Some(table), now)
  {
  }

  /** A window running past midnight covers every minute except those strictly between close and open. */
  lemma OvernightWindow(w: Window, t: nat)
    requires w.close < w.open
    ensures Covers(w, t) <==> !(w.close < t < w.open)
  {
  }

  /** A range that opens at a time of day and closes at 0:00 stays open until the last minute of the day. */
  lemma MidnightCloseRunsToEndOfDay(m: Match, pm: bool, t: nat)
    requires AdjustedHours(m, pm).0 < 24 && m.openMinute < 60
    requires AdjustedHours(m, pm).1 == 0 && m.closeMinute == 0
    requires t < 24 * 60
    ensures Covers(WindowOf(m, pm), t) <==> WindowOf(m, pm).open <= t
  {
  }

  /**
   * Under "pm" a close time of 0:00 or 12:00 is moved to noon, because the
   * correction adds 12 to a close hour of 0 and keeps 12. A range opening in
   * the evening and closing at midnight therefore wraps round to noon.
   */
  lemma PmMidnightCloseIsNoon(m: Match, t: nat)
    requires (m.closeHour == 0 || m.closeHour == 12) && m.closeMinute == 0
    requires 12 < m.openHour + 12 < 24 && m.openMinute < 60
    ensures WindowOf(m, true).close == 12 * 60
    ensures Covers(WindowOf(m, true), t) <==> t >= WindowOf(m, true).open || t <= 12 * 60
  {
  }


  /** Appending a comma and a comma-free piece to an entry appends one trimmed range. */
  lemma RangesAppend(entry: string, junk: string)
    requires ',' !in junk
    ensures Ranges(entry + "," + junk) == Ranges(entry) + [Trim(junk)]
  {
    var pieces := Split(entry, ',');
    assert entry + "," + junk == entry + [','] + junk;
    SplitAppend(entry, ',', junk);
    var longer := pieces + [junk];
    assert Split(entry + "," + junk, ',') == longer;
    var rs, rs' := Ranges(entry), Ranges(entry + "," + junk);
    assert |rs'| == |rs| + 1;
    forall k | 0 <= k < |rs'|
      ensures rs'[k] == (rs + [Trim(junk)])[k]
    {
      if k < |rs| {
        assert longer[k] == pieces[k];
      }
    }
  }

  /** An entry with a comma in it never reads "closed". */
  lemma CommaIsNotClosed(entry: string, junk: string)
    ensures Lower(entry + "," + junk) != "closed"
  {
    var longer := entry + "," + junk;
    assert Lower(longer)[|entry|] == ',';
    assert ',' in Lower(longer);
  }

  /** A range that does not open the pub can be added to a list of ranges without effect. */
  lemma SomeRangeOpenAtAppend(ranges: seq<string>, range: string, now: Moment)
    requires !RangeOpenAt(range, now)
    ensures SomeRangeOpenAt(ranges + [range], now) <==> SomeRangeOpenAt(ranges, now)
  {
    var longer := ranges + [range];
    if SomeRangeOpenAt(longer, now) {
      var k :| 0 <= k < |longer| && RangeOpenAt(longer[k], now);
      assert k < |ranges| && ranges[k] == longer[k];
    }
    if SomeRangeOpenAt(ranges, now) {
      var k :| 0 <= k < |ranges| && RangeOpenAt(ranges[k], now);
      assert longer[k] == ranges[k];
    }
  }

  /**
   * Ranges that do not match the pattern are skipped: appending one to a day's
   * entry changes nothing.
   */
  lemma UnmatchedRangeIsSkipped(entry: string, now: Moment, junk: string)
    requires ',' !in junk && Search(Trim(junk)).None?
    ensures EntryOpenAt(entry + "," + junk, now) == EntryOpenAt(entry, now)
  {
    RangesAppend(entry, junk);
    CommaIsNotClosed(entry, junk);
    SomeRangeOpenAtAppend(Ranges(entry), Trim(junk), now);
    if Lower(entry) == "closed" {
      ClosedIsOneUnmatchedRange(entry);
    }
  }

  /** An entry reading "closed" in any letter case is one range, and it does not match. */
  lemma ClosedIsOneUnmatchedRange(entry: string)
    requires Lower(entry) == "closed"
    ensures Ranges(entry) == [entry] && Search(entry).None?
  {
    assert forall i :: 0 <= i < |entry| ==> LowerChar(entry[i]) == "closed"[i];
    assert ',' !in entry && ':' !in entry;
    SplitWithoutSeparator(entry, ',');
    TrimUnpadded(entry);
    NoColonNoMatch(entry);
  }

  /**
   * An entry holding one range, with no comma and no white space at its ends,
   * decides the day on its own.
   */
  lemma SingleRangeEntry(table: Schedule, now: Moment, entry: string)
    requires TodaysHours(table, now) == Some(entry)
    requires ',' !in entry && !IsSpace(entry[0]) && !IsSpace(entry[|entry| - 1])
    requires Lower(entry) != "closed"
    ensures OpenAt(Some(table), now) <==> RangeOpenAt(entry, now)
  {
    SplitWithoutSeparator(entry, ',');
    TrimUnpadded(entry);
    assert Ranges(entry) == [entry];
    assert SomeRangeOpenAt([entry], now) <==> RangeOpenAt([entry][0], now);
  }

  /** When the single range of the entry matches from its first character, that match decides the day. */
  lemma SingleMatchedEntry(table: Schedule, now: Moment, entry: string, m: Match)
    requires TodaysHours(table, now) == Some(entry)
    requires ',' !in entry && !IsSpace(entry[0]) && !IsSpace(entry[|entry| - 1])
    requires Lower(entry) != "closed" && MatchAt(entry, 0) == Some(m)
    ensures OpenAt(Some(table), now) <==> Covers(WindowOf(m, Includes(Lower(entry), "pm")), MinuteOfDay(now))
  {
    SingleRangeEntry(table, now, entry);
    SearchFromFirstMatch(entry, 0, 0);
  }

  // ---------------------------------------------------------------------------
  // Worked entries
  // ---------------------------------------------------------------------------

  /** "22:00-02:00" runs past midnight: open from 22:00 through 2:00, closed in between. */
  lemma OvernightEntry(table: Schedule, now: Moment)
    requires TodaysHours(table, now) == Some("22:00-02:00")
    ensures OpenAt(Some(table), now) <==> MinuteOfDay(now) >= 22 * 60 || MinuteOfDay(now) <= 2 * 60
  {
    var entry := "22:00-02:00";
    OvernightEntryMatches(entry);
    OvernightEntryReads(entry);
    SingleMatchedEntry(table, now, entry, Match(22, 0, 2, 0));
  }

  lemma OvernightEntryReads(entry: string)
    requires entry == "22:00-02:00"
    ensures Lower(entry) != "closed" && ',' !in entry && !IsSpace(entry[0]) && !IsSpace(entry[|entry| - 1])
    ensures !Includes(Lower(entry), "pm")
  {
    LowerWithoutCapitals(entry);
    MissingFirstCharacter(entry, "pm");
  }

  lemma OvernightEntryMatches(entry: string)
    requires entry == "22:00-02:00"
    ensures MatchAt(entry, 0) == Some(Match(22, 0, 2, 0))
  {
    assert SkipSpace(entry, 5) == 5 && SkipSpace(entry, 6) == 6 && IsDash(entry[5]);
    assert SeparatorAt(entry, 5) == Some(6);
    assert HourAt(entry, 0) == Some((22, 3)) && MinuteAt(entry, 3) == Some((0, 5));
    assert HourAt(entry, 6) == Some((2, 9)) && MinuteAt(entry, 9) == Some((0, 11));
    MatchAtFromPieces(entry, 0, Match(22, 0, 2, 0), 3, 5, 6, 9, 11);
  }

  /** "12:00pm-6:00pm" is open from noon through 18:00. */
  lemma AfternoonEntry(table: Schedule, now: Moment)
    requires TodaysHours(table, now) == Some("12:00pm-6:00pm")
    ensures OpenAt(Some(table), now) <==> 12 * 60 <= MinuteOfDay(now) <= 18 * 60
  {
    var entry := "12:00pm-6:00pm";
    AfternoonEntryMatches(entry);
    AfternoonEntryReads(entry);
    SingleMatchedEntry(table, now, entry, Match(12, 0, 6, 0));
  }

  lemma AfternoonEntryReads(entry: string)
    requires entry == "12:00pm-6:00pm"
    ensures Lower(entry) != "closed" && ',' !in entry && !IsSpace(entry[0]) && !IsSpace(entry[|entry| - 1])
    ensures Includes(Lower(entry), "pm")
  {
    assert OccursAt("pm", Lower(entry), 5);
  }

  lemma AfternoonEntryMatches(entry: string)
    requires entry == "12:00pm-6:00pm"
    ensures MatchAt(entry, 0) == Some(Match(12, 0, 6, 0))
  {
    MarkerRead(entry, 5, "pm");
    assert SkipSpace(entry, 7) == 7 && SkipSpace(entry, 8) == 8 && IsDash(entry[7]);
    assert SeparatorAt(entry, 5) == Some(8);
    assert HourAt(entry, 0) == Some((12, 3)) && MinuteAt(entry, 3) == Some((0, 5));
    assert HourAt(entry, 8) == Some((6, 10)) && MinuteAt(entry, 10) == Some((0, 12));
    MatchAtFromPieces(entry, 0, Match(12, 0, 6, 0), 3, 5, 8, 10, 12);
  }

  /**
   * Because "pm" anywhere in a range moves both hours, "9:00am - 5:00pm" reads
   * as 21:00 to 17:00 and so runs past midnight: closed from 17:01 to 20:59,
   * open the rest of the day.
   */
  lemma MixedMarkersEntry(table: Schedule, now: Moment)
    requires TodaysHours(table, now) == Some("9:00am - 5:00pm")
    ensures OpenAt(Some(table), now) <==> MinuteOfDay(now) >= 21 * 60 || MinuteOfDay(now) <= 17 * 60
  {
    var entry := "9:00am - 5:00pm";
    MixedMarkersEntryMatches(entry);
    MixedMarkersEntryReads(entry);
    SingleMatchedEntry(table, now, entry, Match(9, 0, 5, 0));
  }

  lemma MixedMarkersEntryReads(entry: string)
    requires entry == "9:00am - 5:00pm"
    ensures Lower(entry) != "closed" && ',' !in entry && !IsSpace(entry[0]) && !IsSpace(entry[|entry| - 1])
    ensures Includes(Lower(entry), "pm")
  {
    assert OccursAt("pm", Lower(entry), 13);
  }

  lemma MixedMarkersEntryMatches(entry: string)
    requires entry == "9:00am - 5:00pm"
    ensures MatchAt(entry, 0) == Some(Match(9, 0, 5, 0))
  {
    assert entry[4..9] == "am" + " - ";
    SeparatorRead(entry, 4, "am");
    assert HourAt(entry, 0) == Some((9, 2)) && MinuteAt(entry, 2) == Some((0, 4));
    assert HourAt(entry, 9) == Some((5, 11)) && MinuteAt(entry, 11) == Some((0, 13));
    MatchAtFromPieces(entry, 0, Match(9, 0, 5, 0), 2, 4, 9, 11, 13);
  }

  /**
   * The same rule turns "11:00am - 11:00pm" into 23:00 to 23:00: the pub counts
   * as open during the single minute 23:00.
   */
  lemma ElevenToElevenEntry(table: Schedule, now: Moment)
    requires TodaysHours(table, now) == Some("11:00am - 11:00pm")
    ensures OpenAt(Some(table), now) <==> MinuteOfDay(now) == 23 * 60
  {
    var entry := "11:00am - 11:00pm";
    ElevenToElevenEntryMatches(entry);
    ElevenToElevenEntryReads(entry);
    SingleMatchedEntry(table, now, entry, Match(11, 0, 11, 0));
  }

  lemma ElevenToElevenEntryReads(entry: string)
    requires entry == "11:00am - 11:00pm"
    ensures Lower(entry) != "closed" && ',' !in entry && !IsSpace(entry[0]) && !IsSpace(entry[|entry| - 1])
    ensures Includes(Lower(entry), "pm")
  {
    assert OccursAt("pm", Lower(entry), 15);
  }

  lemma ElevenToElevenEntryMatches(entry: string)
    requires entry == "11:00am - 11:00pm"
    ensures MatchAt(entry, 0) == Some(Match(11, 0, 11, 0))
  {
    assert entry[5..10] == "am" + " - ";
    SeparatorRead(entry, 5, "am");
    assert HourAt(entry, 0) == Some((11, 3)) && MinuteAt(entry, 3) == Some((0, 5));
    assert HourAt(entry, 10) == Some((11, 13)) && MinuteAt(entry, 13) == Some((0, 15));
    MatchAtFromPieces(entry, 0, Match(11, 0, 11, 0), 3, 5, 10, 13, 15);
  }
}
