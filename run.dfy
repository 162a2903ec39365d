/** The decision path of one run of the main program: read the schedule, check the
    slot, read the posted log, pick the next video, look up its caption. Downloading,
    uploading and appending to the log are the external steps that follow a `Post`. */
module Run {
  import opened Wrappers
  import opened Text
  import opened Calendar
  import opened Schedule
  import opened Slots
  import opened Selection

  /** The caption used when neither the environment nor the sheet gives one. */
  const DefaultCaption: string := "\U{2728} Made with AI | #SoraCreations #AI"

  /** The tolerance used when `TOLERANCE_SECONDS` is not set: two and a half minutes. */
  const DefaultToleranceSeconds: int := 150

  /** How a run ends before any external step is taken. */
  datatype RunOutcome =
    | NotScheduled                                       // not a slot now: exit 0
    | ScheduleError(slot: string, hour: int, minute: int) // an entry outside clock range aborts the run
    | NothingToPost(slot: string)                        // every listed video is posted: exit 0
    | Post(file: MediaFile, slot: string, caption: string) // download, upload, then log

  /** The specification of one run. The schedule check and the caption lookup each
      read the clock; `now` is the first reading and `captionDay` the weekday of the second. */
  function PlanRun(scheduleRows: seq<Schedule.Row>, defaultCaption: string, toleranceSeconds: int,
                   now: Clock, log: seq<LogRow>, files: seq<MediaFile>, captionDay: Weekday): RunOutcome
  {
    match FirstDue(TodaySlots(ScheduleOf(scheduleRows), now.day), now, toleranceSeconds)
    case NotDue => NotScheduled
    case SlotOutOfRange(t, hh, mm) => ScheduleError(t, hh, mm)
    case Due(slot) =>
      match FirstUnposted(files, ReadPostedLog(log))
      case None => NothingToPost(slot)
      case Some(f) => Post(f, slot, CaptionFor(CaptionsOf(scheduleRows, defaultCaption), captionDay, defaultCaption))
  }

  /** The main program up to the download, as the sequence of its steps. */
  method DecideRun(scheduleRows: seq<Schedule.Row>, defaultCaption: string, toleranceSeconds: int,
                   now: Clock, log: seq<LogRow>, files: seq<MediaFile>, captionDay: Weekday)
    returns (outcome: RunOutcome)
    ensures outcome == PlanRun(scheduleRows, defaultCaption, toleranceSeconds, now, log, files, captionDay)
    ensures outcome.Post? ==> outcome.file in files && outcome.file.name !in ReadPostedLog(log)
  {
    var schedule, captions := ReadSchedule(scheduleRows, defaultCaption);
    var check := IsTimeToPost(schedule, now, toleranceSeconds);
    if check.NotDue? {
      return NotScheduled;
    }
    if check.SlotOutOfRange? {
      return ScheduleError(check.slot, check.hour, check.minute);
    }
    var posted := ReadPostedLog(log);
    var next := SelectNext(files, posted);
    if next.None? {
      return NothingToPost(check.slot);
    }
    var caption := CaptionFor(captions, captionDay, defaultCaption);
    outcome := Post(next.value, check.slot, caption);
  }

  /** A run that posts picks a listed, unposted file — the first such in listing
      order — for one of today's entries, with the default caption or a fifth cell
      of a row filed under the caption's weekday. */
  lemma PostIsJustified(scheduleRows: seq<Schedule.Row>, defaultCaption: string, toleranceSeconds: int,
                        now: Clock, log: seq<LogRow>, files: seq<MediaFile>, captionDay: Weekday)
    ensures var outcome := PlanRun(scheduleRows, defaultCaption, toleranceSeconds, now, log, files, captionDay);
      outcome.Post? ==>
        && outcome.slot in TodaySlots(ScheduleOf(scheduleRows), now.day)
        && (exists i | 0 <= i < |files| ::
              files[i] == outcome.file && files[i].name !in ReadPostedLog(log)
              && forall j | 0 <= j < i :: files[j].name in ReadPostedLog(log))
        && (|| outcome.caption == defaultCaption
            || exists i | 0 <= i < |scheduleRows| ::
                 scheduleRows[i] != [] && DayKey(scheduleRows[i]) == DayName(captionDay)
                 && |scheduleRows[i]| > 4 && scheduleRows[i][4] == outcome.caption)
  {
    var today := TodaySlots(ScheduleOf(scheduleRows), now.day);
    FirstDueIsFirstStop(today, now, toleranceSeconds);
    FirstUnpostedIndex(files, ReadPostedLog(log));
    CaptionFallback(scheduleRows, defaultCaption, captionDay);
  }

  /** At most one post per file name across runs: once a run's post of a file with a
      non-empty name is recorded in a log shorter than the read range, no later run —
      at any time, on any listing, with any schedule sheet and configuration, whatever
      rows the log gains after it — posts a file of that name again. */
  lemma AtMostOncePerName(scheduleRows: seq<Schedule.Row>, defaultCaption: string, toleranceSeconds: int,
                          now: Clock, log: seq<LogRow>, files: seq<MediaFile>, captionDay: Weekday,
                          postedAt: string, later: seq<LogRow>,
                          scheduleRows': seq<Schedule.Row>, defaultCaption': string, toleranceSeconds': int,
                          now': Clock, files': seq<MediaFile>, captionDay': Weekday)
    requires PlanRun(scheduleRows, defaultCaption, toleranceSeconds, now, log, files, captionDay).Post?
    requires PlanRun(scheduleRows, defaultCaption, toleranceSeconds, now, log, files, captionDay).file.name != ""
    requires |log| < LogReadRows
    ensures var first := PlanRun(scheduleRows, defaultCaption, toleranceSeconds, now, log, files, captionDay);
      var log' := log + [PostedRow(first.file, postedAt, first.slot)] + later;
      var again := PlanRun(scheduleRows', defaultCaption', toleranceSeconds', now', log', files', captionDay');
      again.Post? ==> again.file.name != first.file.name
  {
    var first := PlanRun(scheduleRows, defaultCaption, toleranceSeconds, now, log, files, captionDay);
    var log' := log + [PostedRow(first.file, postedAt, first.slot)] + later;
    ReadPostedLogAppend(log, PostedRow(first.file, postedAt, first.slot), later);
    NeverReselected(files', ReadPostedLog(log'), first.file.name);
  }

  /** The limit of that guarantee in the log's length: once the log fills the read
      range, the row a post appends is never read back, so every later run over the
      same listing selects the same file again and, whenever it posts, posts it. */
  lemma RepostPastReadLimit(scheduleRows: seq<Schedule.Row>, defaultCaption: string, toleranceSeconds: int,
                            now: Clock, log: seq<LogRow>, files: seq<MediaFile>, captionDay: Weekday,
                            postedAt: string, later: seq<LogRow>,
                            scheduleRows': seq<Schedule.Row>, defaultCaption': string, toleranceSeconds': int,
                            now': Clock, captionDay': Weekday)
    requires PlanRun(scheduleRows, defaultCaption, toleranceSeconds, now, log, files, captionDay).Post?
    requires |log| >= LogReadRows
    ensures var first := PlanRun(scheduleRows, defaultCaption, toleranceSeconds, now, log, files, captionDay);
      var log' := log + [PostedRow(first.file, postedAt, first.slot)] + later;
      var again := PlanRun(scheduleRows', defaultCaption', toleranceSeconds', now', log', files, captionDay');
      && FirstUnposted(files, ReadPostedLog(log')) == Some(first.file)
      && (again.Post? ==> again.file == first.file)
  {
    var first := PlanRun(scheduleRows, defaultCaption, toleranceSeconds, now, log, files, captionDay);
    ReadPostedLogAppend(log, PostedRow(first.file, postedAt, first.slot), later);
  }

  /** The limit of that guarantee in the name: a file named "" is logged with an empty
      A cell, which the read drops, so every later run over the same listing selects
      it again and, whenever it posts, posts it — however long the log. */
  lemma RepostEmptyName(scheduleRows: seq<Schedule.Row>, defaultCaption: string, toleranceSeconds: int,
                        now: Clock, log: seq<LogRow>, files: seq<MediaFile>, captionDay: Weekday,
                        postedAt: string, later: seq<LogRow>,
                        scheduleRows': seq<Schedule.Row>, defaultCaption': string, toleranceSeconds': int,
                        now': Clock, captionDay': Weekday)
    requires PlanRun(scheduleRows, defaultCaption, toleranceSeconds, now, log, files, captionDay).Post?
    requires PlanRun(scheduleRows, defaultCaption, toleranceSeconds, now, log, files, captionDay).file.name == ""
    ensures var first := PlanRun(scheduleRows, defaultCaption, toleranceSeconds, now, log, files, captionDay);
      var log' := log + [PostedRow(first.file, postedAt, first.slot)] + later;
      var again := PlanRun(scheduleRows', defaultCaption', toleranceSeconds', now', log', files, captionDay');
      && FirstUnposted(files, ReadPostedLog(log')) == Some(first.file)
      && (again.Post? ==> again.file == first.file)
  {
    var first := PlanRun(scheduleRows, defaultCaption, toleranceSeconds, now, log, files, captionDay);
    var log' := log + [PostedRow(first.file, postedAt, first.slot)] + later;
    ReadPostedLogAppend(log, PostedRow(first.file, postedAt, first.slot), later);
    ReadPostedLogNames(log');
    FirstUnpostedGrows(files, ReadPostedLog(log), ReadPostedLog(log'));
  }

  /** The built-in defaults at work: a Monday row "09:00" without a caption, two
      minutes past nine, an empty log and one video: that video is posted for
      "09:00" with the default caption. */
  lemma DefaultsExample()
    ensures var file := MediaFile("1", "a.mp4", "");
      PlanRun([["monday", "09:00"]], DefaultCaption, DefaultToleranceSeconds,
              Clock(Monday, SlotMicros(9, 2)), [], [file], Monday)
        == Post(file, "09:00", DefaultCaption)
  {
    MondayRowRead();
    MondayNineExamples();
    assert RowsRead([]) == [];
  }

  /** The Monday row of that example: filed under "monday" with one time and the default caption. */
  lemma MondayRowRead()
    ensures ScheduleOf([["monday", "09:00"]]) == map["monday" := ["09:00"]]
    ensures CaptionsOf([["monday", "09:00"]], DefaultCaption) == map["monday" := DefaultCaption]
  {
    var row: Schedule.Row := ["monday", "09:00"];
    StripAround("", "monday", "");
    StripAround("", "09:00", "");
    assert "" + "monday" + "" == "monday" && "" + "09:00" + "" == "09:00";
    assert Lower("monday") == "monday";
    assert DayKey(row) == "monday" && TimesOf(row) == ["09:00"];
    assert [row][..0] == [];
  }
}
