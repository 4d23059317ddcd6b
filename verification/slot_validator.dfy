/**
  The business calendar and the slot validator: whether a requested date and
  time is a legal appointment instant, given the clock reading `now`.
*/
module SlotValidator {
  import opened Wrappers
  import opened Text
  import opened Calendar

  /**
    The scheduler's configuration: the first working hour, the hour at which work
    stops (excluded), the step between slots in minutes, and the minimum notice
    in hours.
  */
  datatype Config = Config(workStart: int, workEnd: int, duration: int, noticeHours: int)

  /** The values the scheduler is constructed with. */
  const DefaultConfig := Config(9, 17, 30, 1)

  const MicrosPerHour := 3_600_000_000

  /**
    Configurations the searches can run with: both working-hour bounds parse as
    `%H:%M` times, and a step is positive and at most a day.
  */
  predicate ValidConfig(c: Config) {
    0 <= c.workStart <= 23 && 0 <= c.workEnd <= 23 && 0 < c.duration <= MinutesPerDay
  }

  lemma DefaultConfigValid()
    ensures ValidConfig(DefaultConfig)
  {
  }

  /** The instant lies at or after `now` plus the minimum notice. */
  predicate NoticeMet(cfg: Config, now: Moment, s: Slot) {
    !(SlotMicros(s) < MomentMicros(now) + cfg.noticeHours * MicrosPerHour)
  }

  /** The hour of the instant is in `[workStart, workEnd)`. */
  predicate InWorkingHours(cfg: Config, s: Slot) {
    cfg.workStart <= s.minute / 60 < cfg.workEnd
  }

  /** The day is Monday to Friday. */
  predicate OnWeekday(s: Slot) {
    Weekday(s.date) < 5
  }

  /**
    `_is_valid_datetime(date, time)`: the text parses as `%Y-%m-%d %H:%M`, the
    instant is not earlier than `now` plus the notice, its hour is a working hour,
    and its day is not Saturday or Sunday. Unparseable text is `false`, never an error.
  */
  predicate IsValidSlot(cfg: Config, now: Moment, date: string, time: string) {
    match ParseSlot(date, time)
    case None => false
    case Some(s) => NoticeMet(cfg, now, s) && InWorkingHours(cfg, s) && OnWeekday(s)
  }

  /** Text that does not parse is rejected. */
  lemma UnparseableRejected(cfg: Config, now: Moment, date: string, time: string)
    requires ParseSlot(date, time).None?
    ensures !IsValidSlot(cfg, now, date, time)
  {
  }

  /**
    The notice comparison is strict: an instant exactly `noticeHours` after `now`
    passes it, one a microsecond earlier does not.
  */
  lemma NoticeBoundary(cfg: Config, now: Moment, s: Slot)
    ensures SlotMicros(s) == MomentMicros(now) + cfg.noticeHours * MicrosPerHour ==> NoticeMet(cfg, now, s)
    ensures SlotMicros(s) + 1 == MomentMicros(now) + cfg.noticeHours * MicrosPerHour ==> !NoticeMet(cfg, now, s)
  {
  }

  /** With the default hours, 16:30 is a working time and 17:00 and 08:59 are not. */
  lemma DefaultClosingHour(d: Date)
    ensures InWorkingHours(DefaultConfig, Slot(d, 16 * 60 + 30))
    ensures !InWorkingHours(DefaultConfig, Slot(d, 17 * 60))
    ensures !InWorkingHours(DefaultConfig, Slot(d, 8 * 60 + 59))
  {
  }

  // Scenarios on the default configuration. 2025-01-06 is a Monday and
  // 2025-01-04 a Saturday.

  lemma MondayText()
    ensures ParseDate("2025-01-06") == Some(Date(2025, 1, 6))
  {
    assert "2025-01-06" == FormatDate(Date(2025, 1, 6));
    DateRoundTrip(Date(2025, 1, 6));
  }

  lemma SaturdayText()
    ensures ParseDate("2025-01-04") == Some(Date(2025, 1, 4))
  {
    assert "2025-01-04" == FormatDate(Date(2025, 1, 4));
    DateRoundTrip(Date(2025, 1, 4));
  }

  lemma ScenarioWeekdays()
    ensures Weekday(Date(2025, 1, 6)) == 0 && Weekday(Date(2025, 1, 4)) == 5
  {
    assert DaysBeforeYear(2025) == 739251;
    assert Ordinal(Date(2025, 1, 6)) == 739257 && Ordinal(Date(2025, 1, 4)) == 739255;
  }

  lemma ScenarioDates()
    ensures ParseDate("2025-01-06") == Some(Date(2025, 1, 6)) && Weekday(Date(2025, 1, 6)) == 0
    ensures ParseDate("2025-01-04") == Some(Date(2025, 1, 4)) && Weekday(Date(2025, 1, 4)) == 5
  {
    MondayText();
    SaturdayText();
    ScenarioWeekdays();
  }

  lemma OpeningTimeTexts()
    ensures ParseTime("09:00") == Some(540) && ParseTime("08:30") == Some(510)
  {
    assert "09:00" == FormatTime(540);
    TimeRoundTrip(540);
    assert "08:30" == FormatTime(510);
    TimeRoundTrip(510);
  }

  lemma LateTimeTexts()
    ensures ParseTime("10:00") == Some(600) && ParseTime("9:00") == Some(540)
  {
    assert "10:00" == FormatTime(600);
    TimeRoundTrip(600);
    assert IndexOf("9:00", ':') == 1;
  }

  lemma ScenarioSlots()
    ensures ParseSlot("2025-01-06", "09:00") == Some(Slot(Date(2025, 1, 6), 540))
    ensures ParseSlot("2025-01-06", "08:30") == Some(Slot(Date(2025, 1, 6), 510))
    ensures ParseSlot("2025-01-04", "10:00") == Some(Slot(Date(2025, 1, 4), 600))
  {
    MondayText();
    SaturdayText();
    OpeningTimeTexts();
    LateTimeTexts();
    ParseSlotOf("2025-01-06", "09:00", Date(2025, 1, 6), 540);
    ParseSlotOf("2025-01-06", "08:30", Date(2025, 1, 6), 510);
    ParseSlotOf("2025-01-04", "10:00", Date(2025, 1, 4), 600);
  }

  /** Monday 09:00 is bookable when `now` is exactly one hour earlier, and not a microsecond later. */
  lemma ScenarioMondayNine()
    ensures IsValidSlot(DefaultConfig, Moment(Date(2025, 1, 6), 8 * 60 * MicrosPerMinute), "2025-01-06", "09:00")
    ensures !IsValidSlot(DefaultConfig, Moment(Date(2025, 1, 6), 8 * 60 * MicrosPerMinute + 1), "2025-01-06", "09:00")
  {
    ScenarioSlots();
    ScenarioDates();
    var s := Slot(Date(2025, 1, 6), 540);
    assert SlotMicros(s) == MomentMicros(Moment(Date(2025, 1, 6), 8 * 60 * MicrosPerMinute)) + MicrosPerHour;
  }

  /** Monday 08:30 is before opening and Saturday 10:00 is a weekend, whatever the clock says. */
  lemma ScenarioRejected(now: Moment)
    ensures !IsValidSlot(DefaultConfig, now, "2025-01-06", "08:30")
    ensures !IsValidSlot(DefaultConfig, now, "2025-01-04", "10:00")
  {
    ScenarioSlots();
    ScenarioDates();
  }
}
