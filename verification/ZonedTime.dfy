/** `time.Date` in a fixed zone: calendar fields of any size, normalised and turned into an instant. */
module ZonedTime {
  import opened Instants
  import opened Calendar

  /** The day number of a date whose month may lie outside 1..12. */
  function DayNumber(year: int, month: int, day: int): int {
    DaysFrom(year + (month - 1) / 12, (month - 1) % 12 + 1, day)
  }

  /** `time.Date(year, month, day, hour, min, sec, 0, zone)`, with the zone `offset` seconds east.
      Seconds overflow into minutes, minutes into hours, hours into days. */
  function Date(year: int, month: int, day: int, hour: int, min: int, sec: int, offset: int): Instant {
    var min' := min + sec / 60;
    var hour' := hour + min' / 60;
    var day' := day + hour' / 24;
    FromUnix(86400 * DayNumber(year, month, day') + 3600 * (hour' % 24) + 60 * (min' % 60) + sec % 60 - offset)
  }

  /** The zero instant is midnight, 1 January of year 1, in UTC. */
  lemma ZeroIsYearOne()
    ensures Date(1, 1, 1, 0, 0, 0, 0) == ZERO
  {
    EpochIsDayZero();
  }

  /** The normalisation is plain positional arithmetic. */
  lemma DateIsPositional(year: int, month: int, day: int, hour: int, min: int, sec: int, offset: int)
    ensures Unix(Date(year, month, day, hour, min, sec, offset))
         == 86400 * DayNumber(year, month, 1) + 86400 * (day - 1) + 3600 * hour + 60 * min + sec - offset
    ensures Date(year, month, day, hour, min, sec, offset) % 1_000_000_000 == 0
  {
    var min' := min + sec / 60;
    var hour' := hour + min' / 60;
    var day' := day + hour' / 24;
    assert DayNumber(year, month, day') == DayNumber(year, month, 1) + day' - 1;
  }
}
