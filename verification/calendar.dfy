/**
  The proleptic Gregorian calendar of Python's `datetime`, and the two text forms
  the scheduler reads and writes: `%Y-%m-%d` dates and `%H:%M` times.

  Parsing follows `datetime.strptime`: `%Y` is exactly four digits, `%m`, `%d`,
  `%H` and `%M` are one or two digits, the whole text must be consumed, and a
  day that does not exist in its month is rejected. Formatting follows
  `strftime`, which always zero-pads.
*/
module Calendar {
  import opened Wrappers
  import opened Text

  /** A calendar day; `ValidDate` says which ones `datetime.date` can hold. */
  datatype Date = Date(year: int, month: int, day: int)

  /** `datetime.date.max`: moving past it raises `OverflowError`. */
  const MaxDate := Date(9999, 12, 31)

  const MinutesPerDay := 1440
  const MicrosPerMinute := 60_000_000
  const MicrosPerDay := 86_400_000_000

  predicate IsLeap(y: int) {
    y % 4 == 0 && (y % 100 != 0 || y % 400 == 0)
  }

  function DaysInMonth(y: int, m: int): int {
    if m == 2 then (if IsLeap(y) then 29 else 28)
    else if m == 4 || m == 6 || m == 9 || m == 11 then 30
    else 31
  }

  predicate ValidDate(d: Date) {
    1 <= d.year <= 9999 && 1 <= d.month <= 12 && 1 <= d.day <= DaysInMonth(d.year, d.month)
  }

  function DaysBeforeYear(y: int): int {
    var p := y - 1;
    p * 365 + p / 4 - p / 100 + p / 400
  }

  function DaysBeforeMonth(y: int, m: int): int {
    var common :=
      if m <= 1 then 0 else if m == 2 then 31 else if m == 3 then 59
      else if m == 4 then 90 else if m == 5 then 120 else if m == 6 then 151
      else if m == 7 then 181 else if m == 8 then 212 else if m == 9 then 243
      else if m == 10 then 273 else if m == 11 then 304 else 334;
    common + (if m > 2 && IsLeap(y) then 1 else 0)
  }

  /** `date.toordinal()`: 0001-01-01 is day 1. */
  function Ordinal(d: Date): int {
    DaysBeforeYear(d.year) + DaysBeforeMonth(d.year, d.month) + d.day
  }

  /** `date.weekday()`: Monday is 0, Saturday 5, Sunday 6. */
  function Weekday(d: Date): (r: int)
    ensures 0 <= r < 7
  {
    (Ordinal(d) + 6) % 7
  }

  /** `d + timedelta(days=1)`, before the overflow check. */
  function NextDay(d: Date): Date {
    if d.day < DaysInMonth(d.year, d.month) then d.(day := d.day + 1)
    else if d.month < 12 then Date(d.year, d.month + 1, 1)
    else Date(d.year + 1, 1, 1)
  }

  /** `d + timedelta(days=n)`, before the overflow check. */
  function AddDays(d: Date, n: nat): Date {
    if n == 0 then d else NextDay(AddDays(d, n - 1))
  }

  lemma YearLength(y: int)
    requires y >= 1
    ensures DaysBeforeYear(y + 1) == DaysBeforeYear(y) + 365 + (if IsLeap(y) then 1 else 0)
  {
    var p := y - 1;
    assert (p + 1) / 4 == p / 4 + (if y % 4 == 0 then 1 else 0);
    assert (p + 1) / 100 == p / 100 + (if y % 100 == 0 then 1 else 0);
    assert (p + 1) / 400 == p / 400 + (if y % 400 == 0 then 1 else 0);
  }

  /** The day after a valid day other than the last is valid. */
  lemma NextDayValid(d: Date)
    requires ValidDate(d) && d != MaxDate
    ensures ValidDate(NextDay(d))
  {
  }

  /** The day after a valid day is one ordinal later; it is valid unless `d` is the last day. */
  lemma NextDayOrdinal(d: Date)
    requires ValidDate(d)
    ensures Ordinal(NextDay(d)) == Ordinal(d) + 1
    ensures d != MaxDate ==> ValidDate(NextDay(d))
    ensures NextDay(d).year >= d.year
  {
    if d.day == DaysInMonth(d.year, d.month) && d.month == 12 {
      YearLength(d.year);
    }
  }

  lemma NextDayWeekday(d: Date)
    requires ValidDate(d)
    ensures 0 <= Weekday(d) < 7
    ensures Weekday(NextDay(d)) == if Weekday(d) == 6 then 0 else Weekday(d) + 1
  {
    var o := Ordinal(d);
    assert Ordinal(NextDay(d)) == o + 1 by {
      NextDayOrdinal(d);
    }
    WeekdayStep(o);
  }

  lemma WeekdayStep(o: int)
    ensures (o + 1 + 6) % 7 == if (o + 6) % 7 == 6 then 0 else (o + 6) % 7 + 1
  {
  }

  /** Adding days moves the ordinal by as many days, and never goes back a year. */
  lemma {:induction false} AddDaysOrdinal(d: Date, n: nat)
    requires ValidDate(d)
    requires forall k :: 0 <= k < n ==> AddDays(d, k) != MaxDate
    ensures ValidDate(AddDays(d, n))
    ensures Ordinal(AddDays(d, n)) == Ordinal(d) + n
  {
    if n > 0 {
      AddDaysOrdinal(d, n - 1);
      NextDayOrdinal(AddDays(d, n - 1));
    }
  }

  /** Once past the last representable day, adding days never yields a valid day again. */
  lemma {:induction false} AddDaysPastMax(d: Date, i: nat, n: nat)
    requires AddDays(d, i) == MaxDate && i < n
    ensures AddDays(d, n).year > 9999
  {
    if n == i + 1 {
    } else {
      AddDaysPastMax(d, i, n - 1);
      var e := AddDays(d, n - 1);
      assert NextDay(e).year >= e.year;
    }
  }

  function DigitChar(n: int): char
    requires 0 <= n < 10
  {
    ('0' as int + n) as char
  }

  function DigitValue(c: char): int
    requires IsDigit(c)
  {
    c as int - '0' as int
  }

  /** `%02d` */
  function Pad2(n: int): string
    requires 0 <= n < 100
  {
    [DigitChar(n / 10), DigitChar(n % 10)]
  }

  /** `%04d` */
  function Pad4(n: int): string
    requires 0 <= n < 10000
  {
    [DigitChar(n / 1000), DigitChar(n / 100 % 10), DigitChar(n / 10 % 10), DigitChar(n % 10)]
  }

  /** `strftime('%Y-%m-%d')` */
  function FormatDate(d: Date): (r: string)
    requires ValidDate(d)
    ensures |r| == 10 && r[4] == '-' && r[7] == '-'
  {
    Pad4(d.year) + "-" + Pad2(d.month) + "-" + Pad2(d.day)
  }

  /** `strftime('%H:%M')` of a minute of the day. */
  function FormatTime(minute: int): (r: string)
    requires 0 <= minute < MinutesPerDay
    ensures |r| == 5 && r[2] == ':' && IsDigit(r[0]) && IsDigit(r[1]) && IsDigit(r[3]) && IsDigit(r[4])
  {
    Pad2(minute / 60) + ":" + Pad2(minute % 60)
  }

  /** The `%m`, `%d`, `%H` and `%M` directives: one or two digits. */
  function ParseShortField(s: string): (r: Option<int>)
    ensures r.Some? ==> 0 <= r.value < 100
  {
    if |s| == 1 && IsDigit(s[0]) then Some(DigitValue(s[0]))
    else if |s| == 2 && IsDigit(s[0]) && IsDigit(s[1]) then Some(10 * DigitValue(s[0]) + DigitValue(s[1]))
    else None
  }

  /** The `%Y` directive: exactly four digits. */
  function ParseYear(s: string): (r: Option<int>)
    ensures r.Some? ==> 0 <= r.value < 10000
  {
    if |s| == 4 && IsDigit(s[0]) && IsDigit(s[1]) && IsDigit(s[2]) && IsDigit(s[3]) then
      Some(1000 * DigitValue(s[0]) + 100 * DigitValue(s[1]) + 10 * DigitValue(s[2]) + DigitValue(s[3]))
    else None
  }

  /** `datetime.strptime(s, '%Y-%m-%d')`, with `None` for the `ValueError` cases. */
  function ParseDate(s: string): (r: Option<Date>)
    ensures r.Some? ==> ValidDate(r.value)
  {
    var k := IndexOf(s, '-');
    if k < 0 then None
    else
      var rest := s[k + 1..];
      var k2 := IndexOf(rest, '-');
      if k2 < 0 then None
      else
        match (ParseYear(s[..k]), ParseShortField(rest[..k2]), ParseShortField(rest[k2 + 1..]))
        case (Some(y), Some(m), Some(dd)) =>
          if ValidDate(Date(y, m, dd)) then Some(Date(y, m, dd)) else None
        case _ => None
  }

  /** `datetime.strptime(s, '%H:%M')` as a minute of the day, with `None` for `ValueError`. */
  function ParseTime(s: string): (r: Option<int>)
    ensures r.Some? ==> 0 <= r.value < MinutesPerDay
  {
    var k := IndexOf(s, ':');
    if k < 0 then None
    else
      match (ParseShortField(s[..k]), ParseShortField(s[k + 1..]))
      case (Some(h), Some(m)) => if h < 24 && m < 60 then Some(h * 60 + m) else None
      case _ => None
  }

  lemma Pad2Parses(n: int)
    requires 0 <= n < 100
    ensures ParseShortField(Pad2(n)) == Some(n)
  {
  }

  lemma Pad4Parses(n: int)
    requires 0 <= n < 10000
    ensures ParseYear(Pad4(n)) == Some(n)
  {
    var q1 := n / 10;
    var q2 := q1 / 10;
    var q3 := q2 / 10;
    assert n / 100 == q2 && n / 1000 == q3;
    assert n == 1000 * q3 + 100 * (q2 % 10) + 10 * (q1 % 10) + n % 10;
  }

  /** Splitting `a + [c] + b` at the first `c` gives back `a` and `b` when `a` has no `c`. */
  lemma SplitAtSeparator(a: string, c: char, b: string)
    requires forall i :: 0 <= i < |a| ==> a[i] != c
    ensures IndexOf(a + [c] + b, c) == |a|
    ensures (a + [c] + b)[..|a|] == a && (a + [c] + b)[|a| + 1..] == b
  {
    var s := a + [c] + b;
    assert s[|a|] == c;
    assert forall i :: 0 <= i < |a| ==> s[i] == a[i];
  }

  /** Formatting a valid date and parsing the text back gives the same date. */
  lemma DateRoundTrip(d: Date)
    requires ValidDate(d)
    ensures ParseDate(FormatDate(d)) == Some(d)
  {
    var y4, m2, d2 := Pad4(d.year), Pad2(d.month), Pad2(d.day);
    var rest := m2 + "-" + d2;
    assert FormatDate(d) == y4 + ['-'] + rest;
    SplitAtSeparator(y4, '-', rest);
    assert rest == m2 + ['-'] + d2;
    SplitAtSeparator(m2, '-', d2);
    Pad4Parses(d.year);
    Pad2Parses(d.month);
    Pad2Parses(d.day);
  }

  /** Formatting a minute of the day and parsing the text back gives the same minute. */
  lemma TimeRoundTrip(minute: int)
    requires 0 <= minute < MinutesPerDay
    ensures ParseTime(FormatTime(minute)) == Some(minute)
  {
    var h2, m2 := Pad2(minute / 60), Pad2(minute % 60);
    assert FormatTime(minute) == h2 + [':'] + m2;
    SplitAtSeparator(h2, ':', m2);
    Pad2Parses(minute / 60);
    Pad2Parses(minute % 60);
  }

  /** A bookable instant: a day and a minute of that day. */
  datatype Slot = Slot(date: Date, minute: int)

  /**
   * The instant `datetime.strptime(f"{date} {time}", '%Y-%m-%d %H:%M')` denotes. The space
   * of the format matches a whole run of whitespace, so whitespace at the end of `date` or at
   * the start of `time` joins the run that separates the two fields.
   */
  function ParseSlot(date: string, time: string): (r: Option<Slot>)
    ensures r.Some? ==> ValidDate(r.value.date) && 0 <= r.value.minute < MinutesPerDay
  {
    match (ParseDate(StripRight(date)), ParseTime(StripLeft(time)))
    case (Some(d), Some(m)) => Some(Slot(d, m))
    case _ => None
  }

  /** A slot `datetime` can hold: a valid day and a minute of that day. */
  predicate WellFormed(s: Slot) {
    ValidDate(s.date) && 0 <= s.minute < MinutesPerDay
  }

  /** A date text that parses ends in a digit, so stripping trailing whitespace keeps all of it. */
  lemma ParsedDateUnstripped(s: string)
    requires ParseDate(s).Some?
    ensures StripRight(s) == s
  {
    var k := IndexOf(s, '-');
    var rest := s[k + 1..];
    var k2 := IndexOf(rest, '-');
    var day := rest[k2 + 1..];
    assert ParseShortField(day).Some?;
    assert IsDigit(day[|day| - 1]);
    assert s[|s| - 1] == day[|day| - 1] by {
      assert day == s[k + k2 + 2..];
    }
  }

  /** A time text that parses starts with a digit, so stripping leading whitespace keeps all of it. */
  lemma ParsedTimeUnstripped(s: string)
    requires ParseTime(s).Some?
    ensures StripLeft(s) == s
  {
    var k := IndexOf(s, ':');
    assert ParseShortField(s[..k]).Some?;
    assert s[0] == s[..k][0];
  }

  /** Two texts that parse on their own parse together as the slot they denote. */
  lemma ParseSlotOf(date: string, time: string, d: Date, m: int)
    requires ParseDate(date) == Some(d) && ParseTime(time) == Some(m)
    ensures ParseSlot(date, time) == Some(Slot(d, m))
  {
    ParsedDateUnstripped(date);
    ParsedTimeUnstripped(time);
  }

  /** Whitespace after the date text or before the time text does not change the instant. */
  lemma ParseSlotJoinRun(date: string, w1: string, w2: string, time: string)
    requires forall i :: 0 <= i < |w1| ==> IsSpace(w1[i])
    requires forall i :: 0 <= i < |w2| ==> IsSpace(w2[i])
    ensures ParseSlot(date + w1, w2 + time) == ParseSlot(date, time)
  {
    StripRightPadded(date, w1);
    StripLeftPadded(w2, time);
  }

  /** Formatting a slot as `(%Y-%m-%d, %H:%M)` and parsing it back gives the same slot. */
  lemma SlotRoundTrip(s: Slot)
    requires WellFormed(s)
    ensures ParseSlot(FormatDate(s.date), FormatTime(s.minute)) == Some(s)
  {
    DateRoundTrip(s.date);
    TimeRoundTrip(s.minute);
    ParseSlotOf(FormatDate(s.date), FormatTime(s.minute), s.date, s.minute);
  }

  /** Minutes since the start of the calendar's day 0; orders slots chronologically. */
  function Minutes(s: Slot): int {
    Ordinal(s.date) * MinutesPerDay + s.minute
  }

  /** An instant on a later day is later, whatever the minutes. */
  lemma LaterDay(a: Slot, b: Slot)
    requires Ordinal(a.date) < Ordinal(b.date) && a.minute < MinutesPerDay && 0 <= b.minute
    ensures Minutes(a) < Minutes(b)
  {
  }

  /** The clock reading `datetime.now()`: a day and the microseconds elapsed in it. */
  datatype Moment = Moment(date: Date, micros: int)

  /** A reading the clock can give. */
  predicate ValidMoment(m: Moment) {
    ValidDate(m.date) && 0 <= m.micros < MicrosPerDay
  }

  function MomentMicros(m: Moment): int {
    Ordinal(m.date) * MicrosPerDay + m.micros
  }

  function SlotMicros(s: Slot): int {
    Minutes(s) * MicrosPerMinute
  }

  /** Different valid dates format differently. */
  lemma FormatDateInjective(a: Date, b: Date)
    requires ValidDate(a) && ValidDate(b) && FormatDate(a) == FormatDate(b)
    ensures a == b
  {
    DateRoundTrip(a);
    DateRoundTrip(b);
  }
}
