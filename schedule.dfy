/** Reading the "Schedule" sheet: rows of `Day, Time 1, Time 2, Time 3, Caption`
    become a map from day to its time strings and a map from day to its caption,
    and the caption for a weekday is looked up with a fallback. */
module Schedule {
  import opened Text
  import opened Calendar

  /** One sheet row as the Sheets API returns it: trailing empty cells are absent. */
  type Row = seq<string>

  /** The key a row is filed under: its first cell, stripped and lower-cased. */
  function DayKey(row: Row): string
    requires row != []
  {
    Lower(Strip(row[0]))
  }

  /** Whether column `k` holds a time entry: the raw cell is present and non-empty. */
  predicate Kept(row: Row, k: nat) {
    k < |row| && row[k] != ""
  }

  /** How many of the time columns before column `k` hold an entry. */
  function KeptBefore(row: Row, k: nat): nat {
    if k <= 1 then 0 else KeptBefore(row, k - 1) + (if Kept(row, k - 1) then 1 else 0)
  }

  /** Column `k` as a time entry: kept, stripped, when the raw cell is present and non-empty. */
  function TimeCell(row: Row, k: nat): seq<string> {
    if Kept(row, k) then [Strip(row[k])] else []
  }

  /** The row's time entries, in column order, from columns 2 to 4. */
  function TimesOf(row: Row): (times: seq<string>)
    ensures |times| <= 3
    ensures forall t | t in times :: exists k | 1 <= k <= 3 :: k < |row| && row[k] != "" && t == Strip(row[k])
    ensures |times| == 3 <==> |row| > 3 && row[1] != "" && row[2] != "" && row[3] != ""
  {
    TimeCell(row, 1) + TimeCell(row, 2) + TimeCell(row, 3)
  }

  /** Every kept time column contributes its stripped cell, in column order: the
      entry of column `k` sits after one entry per kept column before it, and the
      row yields one entry per kept column. */
  lemma TimesOfColumns(row: Row)
    ensures |TimesOf(row)| == KeptBefore(row, 4)
    ensures forall k | 1 <= k <= 3 && Kept(row, k) ::
      KeptBefore(row, k) < |TimesOf(row)| && TimesOf(row)[KeptBefore(row, k)] == Strip(row[k])
  {
    var c1, c2, c3 := TimeCell(row, 1), TimeCell(row, 2), TimeCell(row, 3);
    assert KeptBefore(row, 2) == |c1| && KeptBefore(row, 3) == |c1| + |c2|;
    assert KeptBefore(row, 4) == |c1| + |c2| + |c3|;
  }

  /** The row's caption: its fifth cell when present and non-empty, the default otherwise. */
  function CaptionOf(row: Row, defaultCaption: string): (caption: string)
    ensures caption == defaultCaption || (|row| > 4 && caption == row[4] && caption != "")
    ensures |row| <= 4 ==> caption == defaultCaption
    ensures |row| > 4 && row[4] != "" ==> caption == row[4]
  {
    if |row| > 4 && row[4] != "" then row[4] else defaultCaption
  }

  /** The day-to-times map after reading `rows` in order; a later row for a day replaces an earlier one. */
  function ScheduleOf(rows: seq<Row>): map<string, seq<string>> {
    if rows == [] then map[]
    else
      var before := ScheduleOf(rows[..|rows| - 1]);
      var row := rows[|rows| - 1];
      if row == [] then before else before[DayKey(row) := TimesOf(row)]
  }

  /** The day-to-caption map after reading `rows` in order. */
  function CaptionsOf(rows: seq<Row>, defaultCaption: string): map<string, string> {
    if rows == [] then map[]
    else
      var before := CaptionsOf(rows[..|rows| - 1], defaultCaption);
      var row := rows[|rows| - 1];
      if row == [] then before else before[DayKey(row) := CaptionOf(row, defaultCaption)]
  }

  /** The row loop of `read_schedule_sheet`: fills both maps in one pass. */
  method ReadSchedule(rows: seq<Row>, defaultCaption: string)
    returns (schedule: map<string, seq<string>>, captions: map<string, string>)
    ensures schedule == ScheduleOf(rows) && captions == CaptionsOf(rows, defaultCaption)
    ensures schedule.Keys == captions.Keys
    ensures forall day | day in schedule :: |schedule[day]| <= 3
  {
    schedule, captions := map[], map[];
    for i := 0 to |rows|
      invariant schedule == ScheduleOf(rows[..i])
      invariant captions == CaptionsOf(rows[..i], defaultCaption)
    {
      ReadRowStep(rows, defaultCaption, i);
      var row := rows[i];
      if row == [] {
        continue;
      }
      var day := Lower(Strip(row[0]));
      var times := [];
      if |row| > 1 && row[1] != "" {
        times := times + [Strip(row[1])];
      }
      assert times == TimeCell(row, 1);
      if |row| > 2 && row[2] != "" {
        times := times + [Strip(row[2])];
      }
      assert times == TimeCell(row, 1) + TimeCell(row, 2);
      if |row| > 3 && row[3] != "" {
        times := times + [Strip(row[3])];
      }
      var caption := if |row| > 4 && row[4] != "" then row[4] else defaultCaption;
      assert day == DayKey(row) && times == TimesOf(row) && caption == CaptionOf(row, defaultCaption);
      schedule := schedule[day := times];
      captions := captions[day := caption];
    }
    assert rows[..|rows|] == rows;
    forall day
      ensures day in schedule <==> day in captions
    {
      CaptionDayScheduled(rows, defaultCaption, day);
    }
    forall day | day in schedule
      ensures |schedule[day]| <= 3
    {
      ScheduleEntry(rows, defaultCaption, day);
    }
  }

  /** Reading row `i` changes the maps built from the rows before it by at most that row's day. */
  lemma ReadRowStep(rows: seq<Row>, defaultCaption: string, i: nat)
    requires i < |rows|
    ensures ScheduleOf(rows[..i + 1])
      == if rows[i] == [] then ScheduleOf(rows[..i]) else ScheduleOf(rows[..i])[DayKey(rows[i]) := TimesOf(rows[i])]
    ensures CaptionsOf(rows[..i + 1], defaultCaption)
      == if rows[i] == [] then CaptionsOf(rows[..i], defaultCaption)
         else CaptionsOf(rows[..i], defaultCaption)[DayKey(rows[i]) := CaptionOf(rows[i], defaultCaption)]
  {
    assert rows[..i + 1][..i] == rows[..i];
    assert rows[..i + 1][i] == rows[i];
  }

  /** A non-empty row always puts its day in the schedule. */
  lemma {:induction false} RowDayScheduled(rows: seq<Row>, i: nat)
    requires i < |rows| && rows[i] != []
    ensures DayKey(rows[i]) in ScheduleOf(rows)
  {
    var last := |rows| - 1;
    if i < last {
      assert rows[..last][i] == rows[i];
      RowDayScheduled(rows[..last], i);
    }
  }

  /** Row `i` is the last non-empty row filed under `day`, and the maps hold its times and caption. */
  ghost predicate DecidedBy(rows: seq<Row>, defaultCaption: string, day: string, i: int) {
    && 0 <= i < |rows| && rows[i] != [] && DayKey(rows[i]) == day
    && day in ScheduleOf(rows) && ScheduleOf(rows)[day] == TimesOf(rows[i])
    && day in CaptionsOf(rows, defaultCaption)
    && CaptionsOf(rows, defaultCaption)[day] == CaptionOf(rows[i], defaultCaption)
    && forall j | i < j < |rows| :: rows[j] == [] || DayKey(rows[j]) != day
  }

  /** A last row that is empty or filed under another day leaves `day`'s decision alone. */
  lemma DecidedByExtends(rows: seq<Row>, defaultCaption: string, day: string, i: int)
    requires rows != []
    requires DecidedBy(rows[..|rows| - 1], defaultCaption, day, i)
    requires rows[|rows| - 1] == [] || DayKey(rows[|rows| - 1]) != day
    ensures DecidedBy(rows, defaultCaption, day, i)
  {
    var last := |rows| - 1;
    var init := rows[..last];
    assert rows[i] == init[i];
    assert ScheduleOf(rows)[day] == ScheduleOf(init)[day];
    assert CaptionsOf(rows, defaultCaption)[day] == CaptionsOf(init, defaultCaption)[day];
    forall j | i < j < |rows|
      ensures rows[j] == [] || DayKey(rows[j]) != day
    {
      if j < last {
        assert rows[j] == init[j];
      }
    }
  }

  /** Every scheduled day comes from a non-empty row: the last one filed under it,
      which fixes both its times and its caption. */
  lemma {:induction false} ScheduleEntry(rows: seq<Row>, defaultCaption: string, day: string)
    requires day in ScheduleOf(rows)
    ensures exists i :: DecidedBy(rows, defaultCaption, day, i)
  {
    var last := |rows| - 1;
    var row := rows[last];
    if row != [] && DayKey(row) == day {
      assert DecidedBy(rows, defaultCaption, day, last);
    } else {
      ScheduleEntry(rows[..last], defaultCaption, day);
      var i :| DecidedBy(rows[..last], defaultCaption, day, i);
      DecidedByExtends(rows, defaultCaption, day, i);
    }
  }

  /** The last non-empty row filed under a day decides that day's times and caption. */
  lemma {:induction false} LastRowWins(rows: seq<Row>, defaultCaption: string, i: nat)
    requires i < |rows| && rows[i] != []
    requires forall j | i < j < |rows| :: rows[j] == [] || DayKey(rows[j]) != DayKey(rows[i])
    ensures DayKey(rows[i]) in ScheduleOf(rows) && DayKey(rows[i]) in CaptionsOf(rows, defaultCaption)
    ensures ScheduleOf(rows)[DayKey(rows[i])] == TimesOf(rows[i])
    ensures CaptionsOf(rows, defaultCaption)[DayKey(rows[i])] == CaptionOf(rows[i], defaultCaption)
  {
    var last := |rows| - 1;
    var day := DayKey(rows[i]);
    if i == last {
      assert DecidedBy(rows, defaultCaption, day, i);
    } else {
      var init := rows[..last];
      assert init[i] == rows[i];
      forall j | i < j < |init|
        ensures init[j] == [] || DayKey(init[j]) != DayKey(init[i])
      {
        assert init[j] == rows[j];
      }
      LastRowWins(init, defaultCaption, i);
      assert DecidedBy(init, defaultCaption, day, i);
      DecidedByExtends(rows, defaultCaption, day, i);
    }
  }

  /** `caption_map.get(weekday, CAPTION)`. */
  function CaptionFor(captions: map<string, string>, day: Weekday, defaultCaption: string): string {
    if DayName(day) in captions then captions[DayName(day)] else defaultCaption
  }

  /** The caption used on a weekday is the default, or the non-empty fifth cell of the
      last row filed under that weekday; with no row for the weekday it is the default. */
  lemma CaptionFallback(rows: seq<Row>, defaultCaption: string, day: Weekday)
    ensures var caption := CaptionFor(CaptionsOf(rows, defaultCaption), day, defaultCaption);
      || caption == defaultCaption
      || exists i | 0 <= i < |rows| ::
           rows[i] != [] && DayKey(rows[i]) == DayName(day) && |rows[i]| > 4 && rows[i][4] == caption
    ensures (forall i | 0 <= i < |rows| :: rows[i] == [] || DayKey(rows[i]) != DayName(day))
      ==> CaptionFor(CaptionsOf(rows, defaultCaption), day, defaultCaption) == defaultCaption
  {
    var captions := CaptionsOf(rows, defaultCaption);
    if DayName(day) in captions {
      CaptionDayScheduled(rows, defaultCaption, DayName(day));
      ScheduleEntry(rows, defaultCaption, DayName(day));
    }
  }

  /** Both maps always have the same days. */
  lemma {:induction false} CaptionDayScheduled(rows: seq<Row>, defaultCaption: string, day: string)
    ensures day in CaptionsOf(rows, defaultCaption) <==> day in ScheduleOf(rows)
  {
    if rows != [] {
      CaptionDayScheduled(rows[..|rows| - 1], defaultCaption, day);
    }
  }

  /** A whitespace-only time cell is kept, as an empty entry; an empty one is dropped. */
  lemma BlankTimeCellKept()
    ensures TimesOf(["Monday", " ", "", "09:00"]) == ["", "09:00"]
  {
    assert Strip(" ") == "";
    assert Strip("09:00") == "09:00";
  }

  /** The day key ignores surrounding whitespace and capitals. */
  lemma DayKeyNormalised()
    ensures DayKey([" Monday "]) == DayName(Monday)
  {
    var cell := " Monday ";
    assert SkipSpaces(cell, 1) == 1 && SkipSpaces(cell, 0) == 1;
    assert SkipSpacesBack(cell, 1, 7) == 7 && SkipSpacesBack(cell, 1, 8) == 7;
    assert Strip(cell) == cell[1..7] == "Monday";
  }
}
