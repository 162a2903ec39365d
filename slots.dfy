/** Deciding whether "now" is a posting slot: `is_time_to_post`. Today's entries are
    tried in list order; the first one that parses and lies within the tolerance wins. */
module Slots {
  import opened Wrappers
  import opened Text
  import opened Calendar

  /** The outcome of one schedule check. `SlotOutOfRange` is the `ValueError` that
      `datetime(...)` raises, uncaught, for an entry such as "24:00" or "9:75". */
  datatype SlotCheck = Due(slot: string) | NotDue | SlotOutOfRange(slot: string, hour: int, minute: int)

  /** `hh, mm = map(int, t.split(":"))`: `None` for every text the bare `except` swallows. */
  function ParseSlot(t: string): Option<(int, int)> {
    var parts := Split(t, ':');
    if |parts| != 2 then None
    else match (ParseInt(parts[0]), ParseInt(parts[1]))
      case (Some(hh), Some(mm)) => Some((hh, mm))
      case _ => None
  }

  /** "HH:MM" with two digits each, the form the schedule sheet holds. */
  function FormatSlot(hour: nat, minute: nat): string
    requires hour < 100 && minute < 100
  {
    TwoDigits(hour) + [':'] + TwoDigits(minute)
  }

  /** Every two-digit "HH:MM" entry parses back to its hour and minute. */
  lemma ParseFormattedSlot(hour: nat, minute: nat)
    requires hour < 100 && minute < 100
    ensures ParseSlot(FormatSlot(hour, minute)) == Some((hour, minute))
  {
    SplitAtFirst(TwoDigits(hour), ':', TwoDigits(minute));
    SplitWithoutSeparator(TwoDigits(minute), ':');
    ParseTwoDigits(hour);
    ParseTwoDigits(minute);
  }

  /** `abs(now - scheduled) <= TOLERANCE_SECONDS`, in whole microseconds. */
  predicate WithinTolerance(nowMicros: int, slotMicros: int, toleranceSeconds: int) {
    var delta := if nowMicros >= slotMicros then nowMicros - slotMicros else slotMicros - nowMicros;
    delta <= toleranceSeconds * MicrosPerSecond
  }

  /** The entries the weekday's lookup yields: `schedule.get(weekday, [])`. */
  function TodaySlots(schedule: map<string, seq<string>>, day: Weekday): seq<string> {
    if DayName(day) in schedule then schedule[DayName(day)] else []
  }

  /** An entry the search moves past: it does not parse, or it parses to a clock
      time that is not within the tolerance of now. */
  predicate Passes(t: string, now: Clock, toleranceSeconds: int) {
    match ParseSlot(t)
    case None => true
    case Some((hh, mm)) =>
      InClockRange(hh, mm) && !WithinTolerance(now.micros, SlotMicros(hh, mm), toleranceSeconds)
  }

  /** The specification of the search: the first entry that does not pass decides. */
  function FirstDue(times: seq<string>, now: Clock, toleranceSeconds: int): SlotCheck {
    if times == [] then NotDue
    else
      match ParseSlot(times[0])
      case None => FirstDue(times[1..], now, toleranceSeconds)
      case Some((hh, mm)) =>
        if !InClockRange(hh, mm) then SlotOutOfRange(times[0], hh, mm)
        else if WithinTolerance(now.micros, SlotMicros(hh, mm), toleranceSeconds) then Due(times[0])
        else FirstDue(times[1..], now, toleranceSeconds)
  }

  /** How an entry that does not pass ends the search. */
  function StopAt(t: string, now: Clock, toleranceSeconds: int): SlotCheck
    requires !Passes(t, now, toleranceSeconds)
  {
    var (hh, mm) := ParseSlot(t).value;
    if InClockRange(hh, mm) then Due(t) else SlotOutOfRange(t, hh, mm)
  }

  /** The index of the first entry that does not pass, or `|times|`. */
  function FirstStop(times: seq<string>, now: Clock, toleranceSeconds: int): (k: nat)
    ensures k <= |times|
    ensures forall j | 0 <= j < k :: Passes(times[j], now, toleranceSeconds)
    ensures k < |times| ==> !Passes(times[k], now, toleranceSeconds)
  {
    if times == [] || !Passes(times[0], now, toleranceSeconds) then 0
    else
      var k := FirstStop(times[1..], now, toleranceSeconds);
      PassesShift(times, k, now, toleranceSeconds);
      1 + k
  }

  /** Entries passed in the tail are passed at their shifted index in the whole list. */
  lemma PassesShift(times: seq<string>, k: nat, now: Clock, toleranceSeconds: int)
    requires times != [] && k <= |times| - 1
    requires Passes(times[0], now, toleranceSeconds)
    requires forall j | 0 <= j < k :: Passes(times[1..][j], now, toleranceSeconds)
    requires k < |times| - 1 ==> !Passes(times[1..][k], now, toleranceSeconds)
    ensures forall j | 0 <= j < 1 + k :: Passes(times[j], now, toleranceSeconds)
    ensures 1 + k < |times| ==> !Passes(times[1 + k], now, toleranceSeconds)
  {
    forall j | 0 <= j < 1 + k
      ensures Passes(times[j], now, toleranceSeconds)
    {
      if j > 0 {
        assert times[j] == times[1..][j - 1];
      }
    }
    if 1 + k < |times| {
      assert times[1 + k] == times[1..][k];
    }
  }

  /** The search returns exactly what the first non-passing entry says: the original
      string when it is due, the out-of-range error when it is not a clock time, and
      not-due when every entry passes. Entries after it play no part. */
  lemma {:induction false} FirstDueIsFirstStop(times: seq<string>, now: Clock, toleranceSeconds: int)
    ensures var k := FirstStop(times, now, toleranceSeconds);
      FirstDue(times, now, toleranceSeconds)
        == if k == |times| then NotDue else StopAt(times[k], now, toleranceSeconds)
  {
    if times != [] && Passes(times[0], now, toleranceSeconds) {
      FirstDueIsFirstStop(times[1..], now, toleranceSeconds);
    }
  }

  /** Once an entry decides, whatever follows it is never examined; if no entry of
      a prefix decides, the search continues as if the prefix were absent. */
  lemma {:induction false} FirstDueAppend(a: seq<string>, b: seq<string>, now: Clock, toleranceSeconds: int)
    ensures FirstDue(a + b, now, toleranceSeconds)
      == if FirstDue(a, now, toleranceSeconds) == NotDue then FirstDue(b, now, toleranceSeconds)
         else FirstDue(a, now, toleranceSeconds)
  {
    if a != [] {
      assert (a + b)[0] == a[0] && (a + b)[1..] == a[1..] + b;
      FirstDueAppend(a[1..], b, now, toleranceSeconds);
    } else {
      assert a + b == b;
    }
  }

  /** `is_time_to_post` with the clock reading passed in: looks up today's entries
      and returns on the first one that is due or out of clock range. */
  method IsTimeToPost(schedule: map<string, seq<string>>, now: Clock, toleranceSeconds: int)
    returns (r: SlotCheck)
    ensures r == FirstDue(TodaySlots(schedule, now.day), now, toleranceSeconds)
    ensures DayName(now.day) !in schedule ==> r == NotDue
    ensures r.Due? || r.SlotOutOfRange? ==> r.slot in TodaySlots(schedule, now.day)
  {
    var today := if DayName(now.day) in schedule then schedule[DayName(now.day)] else [];
    for i := 0 to |today|
      invariant FirstDue(today, now, toleranceSeconds) == FirstDue(today[i..], now, toleranceSeconds)
    {
      assert today[i..][1..] == today[i + 1..];
      var t := today[i];
      var parsed := ParseSlot(t);
      if parsed.None? {
        continue;
      }
      var (hh, mm) := parsed.value;
      if !(0 <= hh < 24 && 0 <= mm < 60) {
        return SlotOutOfRange(t, hh, mm);
      }
      var scheduled := (hh * 60 + mm) * 60 * MicrosPerSecond;
      var delta := if now.micros >= scheduled then now.micros - scheduled else scheduled - now.micros;
      if delta <= toleranceSeconds * MicrosPerSecond {
        return Due(t);
      }
    }
    return NotDue;
  }

  /** A single slot is due exactly on the closed window `[slot - tolerance, slot + tolerance]`. */
  lemma SingleSlotWindow(hour: nat, minute: nat, now: Clock, toleranceSeconds: int)
    requires InClockRange(hour, minute)
    ensures var slot := SlotMicros(hour, minute);
      (FirstDue([FormatSlot(hour, minute)], now, toleranceSeconds) == Due(FormatSlot(hour, minute)))
        <==> slot - toleranceSeconds * MicrosPerSecond <= now.micros <= slot + toleranceSeconds * MicrosPerSecond
    ensures FirstDue([FormatSlot(hour, minute)], now, toleranceSeconds) != Due(FormatSlot(hour, minute))
      ==> FirstDue([FormatSlot(hour, minute)], now, toleranceSeconds) == NotDue
  {
    ParseFormattedSlot(hour, minute);
  }

  /** Texts without exactly one ':' are skipped. */
  lemma WrongPieceCountSkipped()
    ensures ParseSlot("") == None
    ensures ParseSlot("9") == None
    ensures ParseSlot("09:00:00") == None
  {
    SplitWithoutSeparator("", ':');
    SplitWithoutSeparator("9", ':');
    assert "09:00:00" == "09" + [':'] + "00:00";
    assert "00:00" == "00" + [':'] + "00";
    SplitAtFirst("09", ':', "00:00");
    SplitAtFirst("00", ':', "00");
    SplitWithoutSeparator("00", ':');
  }

  /** Pieces that are not integers are skipped. */
  lemma NonNumericSkipped()
    ensures ParseSlot("ab:cd") == None
  {
    assert "ab:cd" == "ab" + [':'] + "cd";
    SplitAtFirst("ab", ':', "cd");
    SplitWithoutSeparator("cd", ':');
    assert forall i | 0 <= i < |"ab"| :: !IsDigit("ab"[i]);
  }

  /** An information separator inside an entry makes `int()` fail, so the entry is skipped. */
  lemma InfoSeparatorSlotSkipped()
    ensures ParseSlot("09\U{1c}:00") == None
  {
    assert "09\U{1c}:00" == "09\U{1c}" + [':'] + "00";
    SplitAtFirst("09\U{1c}", ':', "00");
    SplitWithoutSeparator("00", ':');
    assert IsInfoSeparator("09\U{1c}"[2]);
  }

  /** A day holding only malformed entries is never due, and raises nothing. */
  lemma MalformedEntriesSkipped(now: Clock, toleranceSeconds: int)
    ensures FirstDue(["", "9", "09:00:00", "ab:cd"], now, toleranceSeconds) == NotDue
  {
    WrongPieceCountSkipped();
    NonNumericSkipped();
    var times := ["", "9", "09:00:00", "ab:cd"];
    assert times[3..][1..] == [];
    assert FirstDue(times[3..], now, toleranceSeconds) == NotDue;
    assert times[2..][1..] == times[3..];
    assert FirstDue(times[2..], now, toleranceSeconds) == NotDue;
    assert times[1..][1..] == times[2..];
    assert FirstDue(times[1..], now, toleranceSeconds) == NotDue;
  }

  lemma NineOClockParses()
    ensures ParseSlot("09:00") == Some((9, 0))
  {
    assert TwoDigits(9) == "09" && TwoDigits(0) == "00";
    assert FormatSlot(9, 0) == "09:00";
    ParseFormattedSlot(9, 0);
  }

  lemma MidnightMinusOneParses()
    ensures ParseSlot("23:59") == Some((23, 59))
  {
    assert TwoDigits(23) == "23" && TwoDigits(59) == "59";
    assert FormatSlot(23, 59) == "23:59";
    ParseFormattedSlot(23, 59);
  }

  lemma TwentyFourParses()
    ensures ParseSlot("24:00") == Some((24, 0))
  {
    assert TwoDigits(24) == "24" && TwoDigits(0) == "00";
    assert FormatSlot(24, 0) == "24:00";
    ParseFormattedSlot(24, 0);
  }

  /** An entry that parses but is no clock time stops the check with an error,
      even when a valid entry after it would have been due. */
  lemma OutOfRangeAborts(now: Clock)
    ensures FirstDue(["24:00", "09:00"], now, 150) == SlotOutOfRange("24:00", 24, 0)
  {
    TwentyFourParses();
  }

  /** Slots are placed on now's own date: one minute after midnight is not near "23:59". */
  lemma NoMidnightWraparound()
    ensures FirstDue(["23:59"], Clock(Tuesday, 60 * MicrosPerSecond), 150) == NotDue
  {
    MidnightMinusOneParses();
    assert ["23:59"][1..] == [];
  }

  /** The two worked examples for a Monday "09:00" slot and a 150-second tolerance:
      two minutes late is due, three and a half minutes late is not. */
  lemma MondayNineExamples()
    ensures FirstDue(["09:00"], Clock(Monday, SlotMicros(9, 2)), 150) == Due("09:00")
    ensures FirstDue(["09:00"], Clock(Monday, SlotMicros(9, 3) + 30 * MicrosPerSecond), 150) == NotDue
  {
    assert TwoDigits(9) == "09" && TwoDigits(0) == "00";
    assert FormatSlot(9, 0) == "09:00";
    SingleSlotWindow(9, 0, Clock(Monday, SlotMicros(9, 2)), 150);
    SingleSlotWindow(9, 0, Clock(Monday, SlotMicros(9, 3) + 30 * MicrosPerSecond), 150);
  }
}
