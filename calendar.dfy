/** The local clock reading the scheduler is given. The time-zone database is not
    modelled: "now" is a weekday plus the time elapsed since local midnight. */
module Calendar {

  datatype Weekday = Monday | Tuesday | Wednesday | Thursday | Friday | Saturday | Sunday

  /** `strftime("%A").lower()` in an English locale: the key the schedule is looked up by. */
  function DayName(d: Weekday): string {
    match d
    case Monday => "monday"
    case Tuesday => "tuesday"
    case Wednesday => "wednesday"
    case Thursday => "thursday"
    case Friday => "friday"
    case Saturday => "saturday"
    case Sunday => "sunday"
  }

  const MicrosPerSecond: int := 1_000_000
  const MicrosPerDay: int := 86_400 * MicrosPerSecond

  /** A wall-clock reading with microsecond resolution, as `datetime.now(tz)` gives. */
  datatype Clock = Clock(day: Weekday, micros: int)

  /** `datetime(y, m, d, hh, mm)` accepts only hours 0..23 and minutes 0..59. */
  predicate InClockRange(hour: int, minute: int) {
    0 <= hour < 24 && 0 <= minute < 60
  }

  /** Microseconds from midnight to `hour:minute` on the same calendar date. */
  function SlotMicros(hour: int, minute: int): (r: int)
    requires InClockRange(hour, minute)
    ensures 0 <= r < MicrosPerDay
  {
    (hour * 60 + minute) * 60 * MicrosPerSecond
  }
}
