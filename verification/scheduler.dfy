/**
  The appointment manager: booking, cancelling and annotating appointments on
  top of the store, the availability test, the search for the next free slot
  and the walk that proposes alternatives to a taken slot.

  The clock is the argument `now`, read once per operation. A store call that
  fails is the argument `ioError` (or `checkError`/`insertError` for the two
  store calls of a booking); the two searches query the store as if it answered.
*/
module Scheduling {
  import opened Wrappers
  import opened Calendar
  import opened SlotValidator
  import opened AppointmentStore
  import opened Text

  const MsgInvalid := "Invalid appointment date or time"
  const MsgTaken := "This time slot is not available"
  const MsgScheduled := "Appointment scheduled successfully"
  const MsgFailed := "Failed to schedule appointment"
  const MsgCancelled := "Appointment cancelled successfully"
  const MsgNotFound := "No appointment found for the specified time"
  const MsgNotesUpdated := "Appointment notes updated successfully"

  /** How many days `get_next_available_slot` looks at. */
  const SearchDays := 30

  /** The most suggestions `suggest_alternative_slots` returns, whatever is asked. */
  const MaxSuggestions := 10

  /** What `is_available` answers when the store responds: a valid instant and no scheduled row on that exact text. */
  predicate Bookable(cfg: Config, now: Moment, rs: seq<Appointment>, date: string, time: string) {
    IsValidSlot(cfg, now, date, time) && SlotFree(rs, date, time)
  }

  /**
    The rules of `is_available` on a slot value: a day and minute `datetime` can
    hold, the notice, the working hours and the weekday, and no scheduled row on
    the texts `strftime` writes for it.
  */
  predicate Free(cfg: Config, now: Moment, rs: seq<Appointment>, s: Slot) {
    WellFormed(s) && NoticeMet(cfg, now, s) && InWorkingHours(cfg, s) && OnWeekday(s)
    && SlotFree(rs, FormatDate(s.date), FormatTime(s.minute))
  }

  /** The texts the searches write for a slot are bookable exactly when the slot is free. */
  lemma FreeIffBookable(cfg: Config, now: Moment, rs: seq<Appointment>, s: Slot)
    requires WellFormed(s)
    ensures Free(cfg, now, rs, s) <==> Bookable(cfg, now, rs, FormatDate(s.date), FormatTime(s.minute))
  {
    SlotRoundTrip(s);
  }

  /** A successful booking takes the slot: asking again is answered "not available". */
  lemma BookingTakesSlot(cfg: Config, now: Moment, rs: seq<Appointment>, date: string, time: string,
                         id: int, doctor: string, notes: string)
    requires Bookable(cfg, now, rs, date, time)
    ensures IsValidSlot(cfg, now, date, time)
    ensures !Bookable(cfg, now, rs + [Appointment(id, date, time, doctor, notes, Scheduled)], date, time)
  {
    var rs' := rs + [Appointment(id, date, time, doctor, notes, Scheduled)];
    assert Occupies(rs'[|rs|], date, time);
  }

  /**
    The slot check compares the stored texts, not the instants they denote:
    after "9:00" is booked on a day, "09:00" on that day, the same instant, is
    still bookable.
  */
  lemma SameInstantTwoTexts(cfg: Config, now: Moment, rs: seq<Appointment>, date: string,
                            id: int, doctor: string, notes: string)
    requires Bookable(cfg, now, rs, date, "09:00") && SlotFree(rs, date, "9:00")
    ensures ParseSlot(date, "9:00") == ParseSlot(date, "09:00")
    ensures Bookable(cfg, now, rs, date, "9:00")
    ensures Bookable(cfg, now, rs + [Appointment(id, date, "9:00", doctor, notes, Scheduled)], date, "09:00")
  {
    assert ParseSlot(date, "9:00") == ParseSlot(date, "09:00") by {
      OpeningTimeTexts();
      LateTimeTexts();
      ParsedTimeUnstripped("9:00");
      ParsedTimeUnstripped("09:00");
    }
    assert "9:00" != "09:00" by {
      assert |"9:00"| != |"09:00"|;
    }
    SameInstantOtherText(cfg, now, rs, date, "9:00", "09:00", id, doctor, notes);
  }

  /** Booking one text of an instant leaves another text of the same instant bookable. */
  lemma SameInstantOtherText(cfg: Config, now: Moment, rs: seq<Appointment>, date: string,
                             booked: string, other: string, id: int, doctor: string, notes: string)
    requires booked != other && ParseSlot(date, booked) == ParseSlot(date, other)
    requires Bookable(cfg, now, rs, date, other) && SlotFree(rs, date, booked)
    ensures Bookable(cfg, now, rs, date, booked)
    ensures Bookable(cfg, now, rs + [Appointment(id, date, booked, doctor, notes, Scheduled)], date, other)
  {
    var rs' := rs + [Appointment(id, date, booked, doctor, notes, Scheduled)];
    forall i | 0 <= i < |rs'|
      ensures !Occupies(rs'[i], date, other)
    {
      if i < |rs| {
        assert rs'[i] == rs[i];
      }
    }
  }

  // ---------------------------------------------------------------------------
  // get_next_available_slot

  /** The test both searches consult: `is_available` on the texts of a slot. */
  function Availability(cfg: Config, now: Moment, rs: seq<Appointment>): Slot -> bool {
    s => Free(cfg, now, rs, s)
  }

  /** The `j`-th time the day's walk tries: `workStart:00` plus `j` steps. */
  function GridMinute(cfg: Config, j: nat): int {
    cfg.workStart * 60 + j * cfg.duration
  }

  /** The slot at `pos`: `pos.0` days after `start`, at its `pos.1`-th time. */
  function SlotAt(cfg: Config, start: Date, pos: (nat, nat)): Slot {
    Slot(AddDays(start, pos.0), GridMinute(cfg, pos.1))
  }

  /**
    The search from the `j`-th time of day `day` (counted from `start`): the
    position of the first slot `available` accepts in day-then-time order, or
    `None` when the 30 days run out or the next day would pass `MaxDate`.
  */
  function SearchFrom(cfg: Config, available: Slot -> bool, start: Date, day: nat, j: nat): (r: Option<(nat, nat)>)
    requires ValidConfig(cfg)
    ensures r.Some? ==>
      day <= r.value.0 < SearchDays && (r.value.0 == day ==> j <= r.value.1)
      && GridMinute(cfg, r.value.1) < cfg.workEnd * 60
      && available(SlotAt(cfg, start, r.value))
      && (forall i :: day <= i < r.value.0 ==> AddDays(start, i) != MaxDate)
    decreases SearchDays - day, cfg.workEnd * 60 - GridMinute(cfg, j)
  {
    if day >= SearchDays then None
    else if GridMinute(cfg, j) < cfg.workEnd * 60 then
      if available(SlotAt(cfg, start, (day, j))) then Some((day, j))
      else SearchFrom(cfg, available, start, day, j + 1)
    else if AddDays(start, day) == MaxDate then None
    else SearchFrom(cfg, available, start, day + 1, 0)
  }

  /** The day the search starts on: today when no date is given, `None` when the date does not parse. */
  function StartDate(now: Moment, date: string): (r: Option<Date>)
    requires ValidMoment(now)
    ensures r.Some? ==> ValidDate(r.value)
  {
    if date == "" then Some(now.date) else ParseDate(date)
  }

  /** `get_next_available_slot(date)`: the date and time texts of the first free slot. */
  function NextSlot(cfg: Config, now: Moment, rs: seq<Appointment>, date: string): Option<(string, string)>
    requires ValidConfig(cfg) && ValidMoment(now)
  {
    match StartDate(now, date)
    case None => None
    case Some(start) =>
      match SearchFrom(cfg, Availability(cfg, now, rs), start, 0, 0)
      case None => None
      case Some(pos) =>
        var s := SlotAt(cfg, start, pos);
        Some((FormatDate(s.date), FormatTime(s.minute)))
  }

  lemma StepsOrdered(cfg: Config, j: nat, jj: nat)
    requires ValidConfig(cfg) && j <= jj
    ensures GridMinute(cfg, j) <= GridMinute(cfg, jj)
  {
    assert jj * cfg.duration >= j * cfg.duration;
  }

  /**
    Every position the search would reach whose slot `available` accepts is
    not before the position the search returns.
  */
  lemma {:induction false} SearchFirst(cfg: Config, available: Slot -> bool, start: Date, day: nat, j: nat,
                                       k: nat, jj: nat)
    requires ValidConfig(cfg)
    requires day <= k < SearchDays && (k == day ==> j <= jj)
    requires forall i :: day <= i < k ==> AddDays(start, i) != MaxDate
    requires GridMinute(cfg, jj) < cfg.workEnd * 60
    requires available(SlotAt(cfg, start, (k, jj)))
    ensures var r := SearchFrom(cfg, available, start, day, j);
      r.Some? && (r.value.0 < k || (r.value.0 == k && r.value.1 <= jj))
    decreases SearchDays - day, cfg.workEnd * 60 - GridMinute(cfg, j)
  {
    if GridMinute(cfg, j) < cfg.workEnd * 60 {
      if !available(SlotAt(cfg, start, (day, j))) {
        SearchFirst(cfg, available, start, day, j + 1, k, jj);
      }
    } else if k == day {
      StepsOrdered(cfg, j, jj);
    } else {
      SearchFirst(cfg, available, start, day + 1, 0, k, jj);
    }
  }

  /**
    What `get_next_available_slot` returns is a bookable weekday slot in working hours,
    at `workStart:00` plus a whole number of steps, within 30 days of the start.
  */
  lemma NextSlotSound(cfg: Config, now: Moment, rs: seq<Appointment>, date: string)
    requires ValidConfig(cfg) && ValidMoment(now)
    ensures var r := NextSlot(cfg, now, rs, date);
      r.Some? ==>
        StartDate(now, date).Some? && Bookable(cfg, now, rs, r.value.0, r.value.1)
        && ParseSlot(r.value.0, r.value.1).Some?
        && var s := ParseSlot(r.value.0, r.value.1).value;
           var start := StartDate(now, date).value;
           Ordinal(start) <= Ordinal(s.date) < Ordinal(start) + SearchDays
           && cfg.workStart <= s.minute / 60 < cfg.workEnd && Weekday(s.date) < 5
           && exists j: nat :: s.minute == GridMinute(cfg, j)
  {
    if StartDate(now, date).Some? {
      var start := StartDate(now, date).value;
      var r := SearchFrom(cfg, Availability(cfg, now, rs), start, 0, 0);
      if r.Some? {
        var s := SlotAt(cfg, start, r.value);
        AddDaysOrdinal(start, r.value.0);
        SlotRoundTrip(s);
        assert s.minute == GridMinute(cfg, r.value.1);
        FreeIffBookable(cfg, now, rs, s);
      }
    }
  }

  /**
    No free slot among those the search visits comes before the answer; in
    particular a `None` answer means none of them is free.
  */
  lemma NextSlotEarliest(cfg: Config, now: Moment, rs: seq<Appointment>, date: string, k: nat, jj: nat)
    requires ValidConfig(cfg) && ValidMoment(now)
    requires StartDate(now, date).Some?
    requires k < SearchDays && GridMinute(cfg, jj) < cfg.workEnd * 60
    requires forall i :: 0 <= i < k ==> AddDays(StartDate(now, date).value, i) != MaxDate
    ensures var c := SlotAt(cfg, StartDate(now, date).value, (k, jj));
      Free(cfg, now, rs, c) ==>
        NextSlot(cfg, now, rs, date).Some?
        && Instant(NextSlot(cfg, now, rs, date).value) <= Minutes(c)
  {
    var start := StartDate(now, date).value;
    var c := SlotAt(cfg, start, (k, jj));
    if Free(cfg, now, rs, c) {
      SearchFirst(cfg, Availability(cfg, now, rs), start, 0, 0, k, jj);
      var pos := SearchFrom(cfg, Availability(cfg, now, rs), start, 0, 0).value;
      var s := SlotAt(cfg, start, pos);
      AddDaysOrdinal(start, pos.0);
      assert NextSlot(cfg, now, rs, date) == Some((FormatDate(s.date), FormatTime(s.minute)));
      InstantOfTexts(s);
      assert Minutes(s) <= Minutes(c) by {
        AddDaysOrdinal(start, k);
        if pos.0 == k {
          StepsOrdered(cfg, pos.1, jj);
        }
      }
    }
  }

  // ---------------------------------------------------------------------------
  // suggest_alternative_slots

  /**
    `current_dt += timedelta(minutes=duration)` followed by the roll-over to
    `workStart:00` of the next day once the hour reaches `workEnd`; `None`
    where the day would pass `MaxDate` (`OverflowError`).
  */
  function StepForward(cfg: Config, c: Slot): Option<Slot> {
    var m := c.minute + cfg.duration;
    var moved :=
      if m < MinutesPerDay then Some(Slot(c.date, m))
      else if c.date == MaxDate then None
      else Some(Slot(NextDay(c.date), m - MinutesPerDay));
    match moved
    case None => None
    case Some(s) =>
      if s.minute / 60 < cfg.workEnd then Some(s)
      else if s.date == MaxDate then None
      else Some(Slot(NextDay(s.date), cfg.workStart * 60))
  }

  /**
    The weekend skip, which moves to `workStart:00` of the next day while the
    day is Saturday or Sunday: from Saturday it moves twice, from Sunday once.
  */
  function SkipWeekend(cfg: Config, c: Slot): Option<Slot> {
    if Weekday(c.date) < 5 then Some(c)
    else if c.date == MaxDate then None
    else if Weekday(c.date) == 6 then Some(Slot(NextDay(c.date), cfg.workStart * 60))
    else if NextDay(c.date) == MaxDate then None
    else Some(Slot(NextDay(NextDay(c.date)), cfg.workStart * 60))
  }

  /** One pass of the weekend loop leaves the skip's outcome unchanged, and brings Monday closer. */
  lemma SkipWeekendStep(cfg: Config, s: Slot)
    requires ValidDate(s.date) && Weekday(s.date) >= 5 && s.date != MaxDate
    ensures ValidDate(NextDay(s.date))
    ensures Weekday(NextDay(s.date)) == if Weekday(s.date) == 6 then 0 else Weekday(s.date) + 1
    ensures SkipWeekend(cfg, s) == SkipWeekend(cfg, Slot(NextDay(s.date), cfg.workStart * 60))
  {
    NextDayValid(s.date);
    NextDayWeekday(s.date);
  }

  /** The next instant the walk tries; `None` on overflow. */
  function NextCandidate(cfg: Config, c: Slot): Option<Slot> {
    match StepForward(cfg, c)
    case None => None
    case Some(s) => SkipWeekend(cfg, s)
  }

  function Step(cfg: Config): Slot -> Option<Slot> {
    c => NextCandidate(cfg, c)
  }

  lemma StepForwardAdvances(cfg: Config, c: Slot)
    requires ValidConfig(cfg) && WellFormed(c)
    ensures var r := StepForward(cfg, c);
      r.Some? ==> WellFormed(r.value) && Minutes(c) < Minutes(r.value)
  {
    NextDayOrdinal(c.date);
    if c.date != MaxDate {
      NextDayOrdinal(NextDay(c.date));
    }
  }

  lemma {:induction false} SkipWeekendLands(cfg: Config, c: Slot)
    requires ValidConfig(cfg) && WellFormed(c)
    ensures var r := SkipWeekend(cfg, c);
      r.Some? ==> WellFormed(r.value) && Minutes(c) <= Minutes(r.value) && Weekday(r.value.date) < 5
    decreases 7 - Weekday(c.date)
  {
    var w := Weekday(c.date);
    if w >= 5 && c.date != MaxDate {
      var next := Slot(NextDay(c.date), cfg.workStart * 60);
      SkipWeekendStep(cfg, c);
      NextDayOrdinal(c.date);
      LaterDay(c, next);
      if w == 5 {
        SkipWeekendLands(cfg, next);
      }
    }
  }

  /** Each step of the walk lands on a later weekday instant `datetime` can hold. */
  lemma StepAdvances(cfg: Config)
    requires ValidConfig(cfg)
    ensures forall c :: WellFormed(c) && Step(cfg)(c).Some? ==>
      WellFormed(Step(cfg)(c).value) && Minutes(c) < Minutes(Step(cfg)(c).value) && Weekday(Step(cfg)(c).value.date) < 5
  {
    forall c | WellFormed(c) && Step(cfg)(c).Some?
      ensures WellFormed(Step(cfg)(c).value) && Minutes(c) < Minutes(Step(cfg)(c).value)
        && Weekday(Step(cfg)(c).value.date) < 5
    {
      StepForwardAdvances(cfg, c);
      SkipWeekendLands(cfg, StepForward(cfg, c).value);
    }
  }

  /** The slots the walk kept, and whether it ended within the candidate budget. */
  datatype Walked = Walked(found: seq<Slot>, complete: bool)

  /**
    The walk from candidate `c` having kept `found`: while fewer than `count`
    and fewer than ten are kept, move with `next` and keep the candidate when
    `available` accepts it; try at most `fuel` candidates. An overflow gives
    `[]`, like the `except` branch.
  */
  function Walk(next: Slot -> Option<Slot>, available: Slot -> bool, c: Slot, count: int,
                found: seq<Slot>, fuel: nat): Walked
    decreases fuel
  {
    if !(|found| < count && |found| < MaxSuggestions) then Walked(found, true)
    else if fuel == 0 then Walked(found, false)
    else
      match next(c)
      case None => Walked([], true)
      case Some(n) => Walk(next, available, n, count, if available(n) then found + [n] else found, fuel - 1)
  }

  predicate AllAvailable(available: Slot -> bool, ss: seq<Slot>) {
    forall i :: 0 <= i < |ss| ==> available(ss[i])
  }

  /** The slots are later than `after` and ascend, as `rank` orders them. */
  predicate Ascending(rank: Slot -> int, ss: seq<Slot>, after: int) {
    (forall i :: 0 <= i < |ss| ==> after < rank(ss[i]))
    && (forall i, j :: 0 <= i < j < |ss| ==> rank(ss[i]) < rank(ss[j]))
  }

  /** What the walk keeps true, standing at candidate `c`. */
  predicate WalkState(rank: Slot -> int, available: Slot -> bool, c: Slot, count: int, found: seq<Slot>, after: int) {
    AllAvailable(available, found) && Ascending(rank, found, after) && after <= rank(c)
    && (forall i :: 0 <= i < |found| ==> rank(found[i]) <= rank(c))
    && |found| <= MaxSuggestions && (|found| > 0 ==> |found| <= count)
  }

  lemma WalkStep(rank: Slot -> int, available: Slot -> bool, c: Slot, count: int, found: seq<Slot>, after: int, n: Slot)
    requires WalkState(rank, available, c, count, found, after)
    requires rank(c) < rank(n) && |found| < count && |found| < MaxSuggestions
    ensures WalkState(rank, available, n, count, if available(n) then found + [n] else found, after)
  {
    if available(n) {
      var found' := found + [n];
      assert forall i :: 0 <= i < |found| ==> found'[i] == found[i];
    }
  }

  /** One candidate of the walk. */
  lemma WalkUnfold(next: Slot -> Option<Slot>, available: Slot -> bool, c: Slot, count: int,
                   found: seq<Slot>, fuel: nat, n: Slot)
    requires |found| < count && |found| < MaxSuggestions && fuel > 0 && next(c) == Some(n)
    ensures Walk(next, available, c, count, found, fuel)
         == Walk(next, available, n, count, if available(n) then found + [n] else found, fuel - 1)
  {
  }

  /**
    Whatever the moves and the test, as long as each move goes strictly up
    `rank`: the kept slots pass the test, ascend, and number at most ten and
    at most `count`; a walk that ended within budget stopped at the limit.
  */
  lemma {:induction false} WalkGood(next: Slot -> Option<Slot>, available: Slot -> bool, rank: Slot -> int,
                                    c: Slot, count: int, found: seq<Slot>, fuel: nat, after: int)
    requires forall x :: WellFormed(x) && next(x).Some? ==>
      WellFormed(next(x).value) && rank(x) < rank(next(x).value)
    requires WellFormed(c) && WalkState(rank, available, c, count, found, after)
    ensures var w := Walk(next, available, c, count, found, fuel);
      AllAvailable(available, w.found) && Ascending(rank, w.found, after)
      && |w.found| <= MaxSuggestions && (|w.found| > 0 ==> |w.found| <= count)
      && (w.complete && w.found != [] ==> |w.found| == count || |w.found| == MaxSuggestions)
    decreases fuel
  {
    if !(|found| < count && |found| < MaxSuggestions) {
    } else if fuel == 0 {
    } else {
      match next(c)
      case None =>
      case Some(n) =>
        WalkStep(rank, available, c, count, found, after, n);
        WalkGood(next, available, rank, n, count, if available(n) then found + [n] else found, fuel - 1, after);
    }
  }

  /**
    The walk only appends to what it has kept: its result extends `found`, unless
    an overflow ended it with nothing.
  */
  lemma {:induction false} WalkKeepsPrefix(next: Slot -> Option<Slot>, available: Slot -> bool, c: Slot,
                                           count: int, found: seq<Slot>, fuel: nat)
    ensures var w := Walk(next, available, c, count, found, fuel);
      (w.found == [] && w.complete) || (|found| <= |w.found| && w.found[..|found|] == found)
    decreases fuel
  {
    if !(|found| < count && |found| < MaxSuggestions) {
    } else if fuel == 0 {
    } else {
      match next(c)
      case None =>
      case Some(n) =>
        var found' := if available(n) then found + [n] else found;
        WalkKeepsPrefix(next, available, n, count, found', fuel - 1);
        var w := Walk(next, available, n, count, found', fuel - 1);
        if |found'| <= |w.found| && w.found[..|found'|] == found' {
          assert w.found[..|found|] == w.found[..|found'|][..|found|];
        }
    }
  }

  /**
    No accepted candidate is skipped: a candidate the test accepts is kept right
    after what was kept before it (a rejected one is passed over, by `WalkUnfold`),
    unless an overflow later ends the walk with nothing.
  */
  lemma WalkKeepsAccepted(next: Slot -> Option<Slot>, available: Slot -> bool, c: Slot, count: int,
                          found: seq<Slot>, fuel: nat, n: Slot)
    requires |found| < count && |found| < MaxSuggestions && fuel > 0
    requires next(c) == Some(n) && available(n)
    ensures var w := Walk(next, available, c, count, found, fuel);
      (w.found == [] && w.complete) || (|found| < |w.found| && w.found[..|found| + 1] == found + [n])
  {
    WalkKeepsPrefix(next, available, n, count, found + [n], fuel - 1);
  }

  /** Moving with `next` from `c` meets an overflow within `k` moves. */
  predicate Overflows(next: Slot -> Option<Slot>, c: Slot, k: nat)
    decreases k
  {
    k > 0 && match next(c) case None => true case Some(n) => Overflows(next, n, k - 1)
  }

  /** A walk that was asked for something and finished with nothing passed the last date. */
  lemma {:induction false} WalkEmptyOverflows(next: Slot -> Option<Slot>, available: Slot -> bool, c: Slot,
                                              count: int, found: seq<Slot>, fuel: nat)
    requires count > 0
    ensures var w := Walk(next, available, c, count, found, fuel);
      w.complete && w.found == [] ==> Overflows(next, c, fuel)
    decreases fuel
  {
    if !(|found| < count && |found| < MaxSuggestions) {
    } else if fuel == 0 {
    } else {
      match next(c)
      case None =>
      case Some(n) =>
        WalkEmptyOverflows(next, available, n, count, if available(n) then found + [n] else found, fuel - 1);
    }
  }

  /** From an empty start, the first candidate, when accepted, is the first slot kept. */
  lemma WalkFirstKept(next: Slot -> Option<Slot>, available: Slot -> bool, c: Slot, count: int,
                      fuel: nat, n: Slot)
    requires count > 0 && fuel > 0 && next(c) == Some(n) && available(n)
    ensures var w := Walk(next, available, c, count, [], fuel);
      (w.found != [] && w.found[0] == n) || (w.found == [] && w.complete && Overflows(next, c, fuel))
  {
    var w := Walk(next, available, c, count, [], fuel);
    WalkKeepsAccepted(next, available, c, count, [], fuel, n);
    if w.found == [] {
      WalkEmptyOverflows(next, available, c, count, [], fuel);
    } else {
      assert w.found[..1] == [] + [n];
      assert w.found[0] == w.found[..1][0];
    }
  }

  predicate AllWellFormed(ss: seq<Slot>) {
    forall i :: 0 <= i < |ss| ==> WellFormed(ss[i])
  }

  /** The walk of `suggest_alternative_slots` from the preferred slot `p`. */
  lemma SuggestWalk(cfg: Config, now: Moment, rs: seq<Appointment>, p: Slot, count: int, fuel: nat)
    requires ValidConfig(cfg) && WellFormed(p)
    ensures var w := Walk(Step(cfg), Availability(cfg, now, rs), p, count, [], fuel);
      AllWellFormed(w.found)
      && (forall i :: 0 <= i < |w.found| ==> Free(cfg, now, rs, w.found[i]))
      && Ascending(Minutes, w.found, Minutes(p))
      && |w.found| <= MaxSuggestions && (|w.found| > 0 ==> |w.found| <= count)
      && (w.complete && w.found != [] ==> |w.found| == count || |w.found| == MaxSuggestions)
  {
    StepAdvances(cfg);
    WalkGood(Step(cfg), Availability(cfg, now, rs), Minutes, p, count, [], fuel, Minutes(p));
  }

  /** The `{'date': ..., 'time': ...}` texts of the kept slots. */
  function Texts(ss: seq<Slot>): (r: seq<(string, string)>)
    requires AllWellFormed(ss)
    ensures |r| == |ss|
  {
    seq(|ss|, i requires 0 <= i < |ss| => (FormatDate(ss[i].date), FormatTime(ss[i].minute)))
  }

  /**
    `suggest_alternative_slots(date, time, count)` trying at most `fuel`
    candidates: the suggestions, and whether the walk ended within that budget.
  */
  function Suggest(cfg: Config, now: Moment, rs: seq<Appointment>, date: string, time: string,
                   count: int, fuel: nat): (seq<(string, string)>, bool)
    requires ValidConfig(cfg)
  {
    match ParseSlot(date, time)
    case None => ([], true)
    case Some(p) =>
      SuggestWalk(cfg, now, rs, p, count, fuel);
      var w := Walk(Step(cfg), Availability(cfg, now, rs), p, count, [], fuel);
      (Texts(w.found), w.complete)
  }

  /** The instant a pair of texts names, in minutes; -1 when it does not parse. */
  function Instant(t: (string, string)): int {
    match ParseSlot(t.0, t.1)
    case None => -1
    case Some(s) => Minutes(s)
  }

  /** A slot's formatted texts denote the slot's own instant. */
  lemma InstantOfTexts(s: Slot)
    requires WellFormed(s)
    ensures Instant((FormatDate(s.date), FormatTime(s.minute))) == Minutes(s)
  {
    SlotRoundTrip(s);
  }

  /**
    Every suggestion is a bookable slot on a weekday strictly after the
    preferred instant, the suggestions ascend, there are at most ten and at
    most `count`, and a walk that ended within budget with any suggestions has
    exactly `min(count, 10)` of them.
  */
  lemma SuggestGood(cfg: Config, now: Moment, rs: seq<Appointment>, date: string, time: string,
                    count: int, fuel: nat)
    requires ValidConfig(cfg)
    ensures var (s, complete) := Suggest(cfg, now, rs, date, time, count, fuel);
      (forall i :: 0 <= i < |s| ==>
        Bookable(cfg, now, rs, s[i].0, s[i].1) && Instant((date, time)) < Instant(s[i])
        && Weekday(ParseSlot(s[i].0, s[i].1).value.date) < 5)
      && (forall i, j :: 0 <= i < j < |s| ==> Instant(s[i]) < Instant(s[j]))
      && |s| <= MaxSuggestions && (|s| > 0 ==> |s| <= count)
      && (complete && s != [] ==> |s| == count || |s| == MaxSuggestions)
      && (count <= 0 ==> s == [] && complete)
  {
    match ParseSlot(date, time)
    case None =>
    case Some(p) =>
      SuggestWalk(cfg, now, rs, p, count, fuel);
      var w := Walk(Step(cfg), Availability(cfg, now, rs), p, count, [], fuel);
      assert Suggest(cfg, now, rs, date, time, count, fuel) == (Texts(w.found), w.complete);
      assert Instant((date, time)) == Minutes(p);
      TextsGood(cfg, now, rs, w.found, Minutes(p));
  }

  /** The texts of free ascending slots are bookable, denote those slots and ascend with them. */
  lemma TextsGood(cfg: Config, now: Moment, rs: seq<Appointment>, found: seq<Slot>, after: int)
    requires AllWellFormed(found) && Ascending(Minutes, found, after)
    requires forall i :: 0 <= i < |found| ==> Free(cfg, now, rs, found[i])
    ensures var s := Texts(found);
      (forall i :: 0 <= i < |s| ==>
        Bookable(cfg, now, rs, s[i].0, s[i].1) && after < Instant(s[i])
        && Weekday(ParseSlot(s[i].0, s[i].1).value.date) < 5)
      && (forall i, j :: 0 <= i < j < |s| ==> Instant(s[i]) < Instant(s[j]))
  {
    var s := Texts(found);
    forall i | 0 <= i < |s|
      ensures ParseSlot(s[i].0, s[i].1) == Some(found[i]) && Instant(s[i]) == Minutes(found[i])
      ensures Bookable(cfg, now, rs, s[i].0, s[i].1)
    {
      assert s[i] == (FormatDate(found[i].date), FormatTime(found[i].minute));
      SlotRoundTrip(found[i]);
      FreeIffBookable(cfg, now, rs, found[i]);
    }
  }

  /**
    The first free candidate after the preferred slot is the first suggestion,
    unless the walk passes the last date and ends with nothing.
  */
  lemma SuggestKeepsFirstFree(cfg: Config, now: Moment, rs: seq<Appointment>, date: string, time: string,
                              count: int, fuel: nat, p: Slot, n: Slot)
    requires ValidConfig(cfg) && ParseSlot(date, time) == Some(p)
    requires count > 0 && fuel > 0 && NextCandidate(cfg, p) == Some(n) && Free(cfg, now, rs, n)
    ensures var (s, complete) := Suggest(cfg, now, rs, date, time, count, fuel);
      (s != [] && s[0] == (FormatDate(n.date), FormatTime(n.minute)))
      || (s == [] && complete && Overflows(Step(cfg), p, fuel))
  {
    var w := Walk(Step(cfg), Availability(cfg, now, rs), p, count, [], fuel);
    assert AllWellFormed(w.found) && Suggest(cfg, now, rs, date, time, count, fuel) == (Texts(w.found), w.complete) by {
      SuggestIsWalk(cfg, now, rs, date, time, count, fuel, p);
    }
    assert (w.found != [] && w.found[0] == n) || (w.found == [] && w.complete && Overflows(Step(cfg), p, fuel)) by {
      WalkFirstKept(Step(cfg), Availability(cfg, now, rs), p, count, fuel, n);
    }
    if w.found != [] {
      assert Texts(w.found)[0] == (FormatDate(n.date), FormatTime(n.minute));
    }
  }

  /** For a preferred slot that parses, the suggestions are the texts of what the walk keeps. */
  lemma SuggestIsWalk(cfg: Config, now: Moment, rs: seq<Appointment>, date: string, time: string,
                      count: int, fuel: nat, p: Slot)
    requires ValidConfig(cfg) && ParseSlot(date, time) == Some(p)
    ensures var w := Walk(Step(cfg), Availability(cfg, now, rs), p, count, [], fuel);
      AllWellFormed(w.found) && Suggest(cfg, now, rs, date, time, count, fuel) == (Texts(w.found), w.complete)
  {
    SuggestWalk(cfg, now, rs, p, count, fuel);
  }

  /** Suggestions asked for, none given and the walk finished: it passed the last date. */
  lemma SuggestEmptyOverflows(cfg: Config, now: Moment, rs: seq<Appointment>, date: string, time: string,
                              count: int, fuel: nat, p: Slot)
    requires ValidConfig(cfg) && ParseSlot(date, time) == Some(p) && count > 0
    ensures var (s, complete) := Suggest(cfg, now, rs, date, time, count, fuel);
      complete && s == [] ==> Overflows(Step(cfg), p, fuel)
  {
    SuggestIsWalk(cfg, now, rs, date, time, count, fuel, p);
    WalkEmptyOverflows(Step(cfg), Availability(cfg, now, rs), p, count, [], fuel);
  }

  /** An unparseable preferred date or time gives no suggestions. */
  lemma SuggestUnparseable(cfg: Config, now: Moment, rs: seq<Appointment>, date: string, time: string,
                           count: int, fuel: nat)
    requires ValidConfig(cfg) && ParseSlot(date, time).None?
    ensures Suggest(cfg, now, rs, date, time, count, fuel) == ([], true)
  {
  }

  // ---------------------------------------------------------------------------
  // The manager object

  class AppointmentManager {
    const config: Config
    const db: Database

    ghost predicate Valid()
      reads this, db
    {
      ValidConfig(config) && db.Valid()
    }

    /** `__init__`: the store it is given and the default hours, step and notice. */
    constructor (db: Database)
      requires db.Valid()
      ensures Valid() && this.db == db && config == DefaultConfig
    {
      this.db := db;
      config := DefaultConfig;
    }

    /** `is_available`: the slot is valid and the store reports no scheduled row on it. */
    method IsAvailable(now: Moment, date: string, time: string, ioError: bool) returns (free: bool)
      ensures free == (!ioError && Bookable(config, now, db.records, date, time))
    {
      if !IsValidSlot(config, now, date, time) {
        return false;
      }
      free := db.CheckAvailability(date, time, ioError);
      CountZeroIffFree(db.records, date, time);
    }

    /**
      `schedule_appointment`: validate, check the slot, insert. The check and the
      insert are two store calls, so each may fail on its own.
    */
    method Schedule(now: Moment, date: string, time: string, doctor: string, notes: string,
                    checkError: bool, insertError: bool)
      returns (ok: bool, msg: string)
      requires Valid()
      modifies db
      ensures Valid()
      ensures ok == (Bookable(config, now, old(db.records), date, time) && !checkError && !insertError)
      ensures msg ==
        if !IsValidSlot(config, now, date, time) then MsgInvalid
        else if checkError || !SlotFree(old(db.records), date, time) then MsgTaken
        else if insertError then MsgFailed
        else MsgScheduled
      ensures db.records ==
        if ok then old(db.records) + [Appointment(|old(db.records)| + 1, date, time, doctor, notes, Scheduled)]
        else old(db.records)
      ensures UniqueScheduled(old(db.records)) ==> UniqueScheduled(db.records)
      ensures ok ==> !Bookable(config, now, db.records, date, time)
    {
      if !IsValidSlot(config, now, date, time) {
        return false, MsgInvalid;
      }
      var free := IsAvailable(now, date, time, checkError);
      if !free {
        return false, MsgTaken;
      }
      var added := db.AddAppointment(date, time, doctor, notes, insertError);
      AppendUnique(old(db.records), Appointment(|old(db.records)| + 1, date, time, doctor, notes, Scheduled));
      if added {
        BookingTakesSlot(config, now, old(db.records), date, time, |old(db.records)| + 1, doctor, notes);
        ok, msg := true, MsgScheduled;
      } else {
        ok, msg := false, MsgFailed;
      }
    }

    /** `cancel_appointment`: mark the slot's scheduled rows cancelled. */
    method Cancel(date: string, time: string, ioError: bool) returns (ok: bool, msg: string)
      requires Valid()
      modifies db
      ensures Valid()
      ensures ok == (!ioError && !SlotFree(old(db.records), date, time))
      ensures msg == if ok then MsgCancelled else MsgNotFound
      ensures db.records == if ioError then old(db.records) else CancelMatching(old(db.records), date, time)
      ensures !ioError ==> SlotFree(db.records, date, time)
      ensures UniqueScheduled(old(db.records)) ==> UniqueScheduled(db.records)
    {
      ok := db.CancelAppointment(date, time, ioError);
      CountZeroIffFree(old(db.records), date, time);
      CancelFreesSlot(old(db.records), date, time);
      if UniqueScheduled(old(db.records)) {
        CancelKeepsUnique(old(db.records), date, time);
      }
      msg := if ok then MsgCancelled else MsgNotFound;
    }

    /** `update_appointment_notes`: replace the notes of the slot's scheduled rows. */
    method UpdateNotes(date: string, time: string, notes: string, ioError: bool) returns (ok: bool, msg: string)
      requires Valid()
      modifies db
      ensures Valid()
      ensures ok == (!ioError && !SlotFree(old(db.records), date, time))
      ensures msg == if ok then MsgNotesUpdated else MsgNotFound
      ensures db.records == if ioError then old(db.records) else RenoteMatching(old(db.records), date, time, notes)
      ensures UniqueScheduled(old(db.records)) ==> UniqueScheduled(db.records)
    {
      ok := db.UpdateAppointmentNotes(date, time, notes, ioError);
      CountZeroIffFree(old(db.records), date, time);
      RenoteKeepsSlots(old(db.records), date, time, notes, date, time);
      msg := if ok then MsgNotesUpdated else MsgNotFound;
    }

    /** `get_appointments(date)`: the store's listing. */
    method GetAppointments(date: string, today: string, ioError: bool) returns (rows: seq<Appointment>)
      ensures ioError ==> rows == []
      ensures !ioError ==> multiset(rows) == multiset(Selection(db.records, date, today)) && SortedByKey(rows)
      ensures forall a :: a in rows ==> a in db.records && Listed(a, date, today)
    {
      rows := db.GetAppointments(date, today, ioError);
    }

    /**
      `get_daily_schedule(date)`: the store's listing for that date, which is
      the day's scheduled rows in time order; an empty date falls through to
      the upcoming listing, as the store treats it.
    */
    method GetDailySchedule(date: string, today: string, ioError: bool) returns (rows: seq<Appointment>)
      ensures ioError ==> rows == []
      ensures !ioError ==> multiset(rows) == multiset(Selection(db.records, date, today)) && SortedByKey(rows)
      ensures date != "" ==>
        (forall a :: a in rows ==> a in db.records && a.status == Scheduled && a.date == date)
        && (forall i, j :: 0 <= i < j < |rows| ==> LexLe(rows[i].time, rows[j].time))
    {
      rows := db.GetAppointments(date, today, ioError);
    }

    /** `is_available` on the texts the searches write for a slot, with the store answering. */
    method SlotAvailable(now: Moment, s: Slot) returns (free: bool)
      requires WellFormed(s)
      ensures free == Free(config, now, db.records, s)
    {
      free := IsAvailable(now, FormatDate(s.date), FormatTime(s.minute), false);
      FreeIffBookable(config, now, db.records, s);
    }

    /**
      The day-by-day search from `start`; `available` stands for the
      availability of the current rows, pointwise.
    */
    method SearchSlots(now: Moment, ghost available: Slot -> bool, start: Date)
      returns (r: Option<(string, string)>)
      requires ValidConfig(config) && ValidDate(start)
      requires forall x {:trigger Free(config, now, db.records, x)} :: available(x) == Free(config, now, db.records, x)
      ensures var pos := SearchFrom(config, available, start, 0, 0);
        r.Some? == pos.Some?
        && (r.Some? ==>
              var s := SlotAt(config, start, pos.value);
              WellFormed(s) && r.value == (FormatDate(s.date), FormatTime(s.minute)))
    {
      var d := start;
      var day := 0;
      while day < SearchDays
        invariant 0 <= day <= SearchDays && ValidDate(d) && d == AddDays(start, day)
        invariant SearchFrom(config, available, start, 0, 0) == SearchFrom(config, available, start, day, 0)
        decreases SearchDays - day
      {
        var m := config.workStart * 60;
        ghost var j: nat := 0;
        while m < config.workEnd * 60
          invariant m == GridMinute(config, j)
          invariant SearchFrom(config, available, start, 0, 0) == SearchFrom(config, available, start, day, j)
          decreases config.workEnd * 60 - m
        {
          var free := SlotAvailable(now, Slot(d, m));
          assert SlotAt(config, start, (day, j)) == Slot(d, m);
          if free {
            return Some((FormatDate(d), FormatTime(m)));
          }
          m := m + config.duration;
          j := j + 1;
        }
        if d == MaxDate {
          return None;
        }
        NextDayValid(d);
        d := NextDay(d);
        day := day + 1;
      }
      return None;
    }

    /** `get_next_available_slot(date)`: day by day for 30 days, each working time in turn. */
    method NextAvailableSlot(now: Moment, date: string) returns (r: Option<(string, string)>)
      requires Valid() && ValidMoment(now)
      ensures r == NextSlot(config, now, db.records, date)
    {
      var start: Date;
      if date == "" {
        start := now.date;
      } else {
        match ParseDate(date)
        case None => return None;
        case Some(d0) => start := d0;
      }
      r := SearchSlots(now, Availability(config, now, db.records), start);
    }

    /**
      `current_dt += timedelta(minutes=duration)`, then to `workStart:00` of the
      next day once the hour reaches `workEnd`; `None` past `MaxDate`.
    */
    method StepOn(c: Slot) returns (r: Option<Slot>)
      requires ValidConfig(config) && WellFormed(c)
      ensures r == StepForward(config, c)
      ensures r.Some? ==> WellFormed(r.value)
    {
      var d, m := c.date, c.minute + config.duration;
      if m >= MinutesPerDay {
        if d == MaxDate {
          return None;
        }
        NextDayValid(d);
        d, m := NextDay(d), m - MinutesPerDay;
      }
      if m / 60 >= config.workEnd {
        if d == MaxDate {
          return None;
        }
        NextDayValid(d);
        d, m := NextDay(d), config.workStart * 60;
      }
      return Some(Slot(d, m));
    }

    /** The weekend loop: while the day is Saturday or Sunday, `workStart:00` of the next day. */
    method SkipWeekendFrom(s: Slot) returns (r: Option<Slot>)
      requires ValidConfig(config) && WellFormed(s)
      ensures r == SkipWeekend(config, s)
    {
      var d, m := s.date, s.minute;
      while Weekday(d) >= 5
        invariant WellFormed(Slot(d, m))
        invariant SkipWeekend(config, s) == SkipWeekend(config, Slot(d, m))
        decreases if Weekday(d) >= 5 then 7 - Weekday(d) else 0
      {
        if d == MaxDate {
          return None;
        }
        SkipWeekendStep(config, Slot(d, m));
        d, m := NextDay(d), config.workStart * 60;
      }
      return Some(Slot(d, m));
    }

    /**
      One move of the suggestion walk: `duration` minutes on, then to the next
      working morning once past working hours, then past the weekend; `None`
      where the day would pass `MaxDate`.
    */
    method Advance(c: Slot) returns (r: Option<Slot>)
      requires ValidConfig(config) && WellFormed(c)
      ensures r == Step(config)(c)
    {
      var s := StepOn(c);
      match s
      case None => r := None;
      case Some(s') => r := SkipWeekendFrom(s');
    }

    /**
      One candidate of the walk: the next instant, and whether it is bookable.
      `step` and `available` stand for `Step(config)` and the availability of
      the current rows, pointwise.
    */
    method WalkOnce(now: Moment, ghost step: Slot -> Option<Slot>, ghost available: Slot -> bool,
                    c: Slot, count: int, ghost found: seq<Slot>, budget: nat)
      returns (next: Option<Slot>, free: bool)
      requires ValidConfig(config) && WellFormed(c)
      requires forall x {:trigger NextCandidate(config, x)} :: step(x) == NextCandidate(config, x)
      requires forall x {:trigger Free(config, now, db.records, x)} :: available(x) == Free(config, now, db.records, x)
      requires |found| < count && |found| < MaxSuggestions && budget > 0
      ensures next.None? ==> Walk(step, available, c, count, found, budget) == Walked([], true)
      ensures next.Some? ==> WellFormed(next.value)
      ensures next.Some? ==>
        Walk(step, available, c, count, found, budget)
        == Walk(step, available, next.value, count, if free then found + [next.value] else found, budget - 1)
    {
      next := Advance(c);
      if next.None? {
        return next, false;
      }
      StepAdvances(config);
      var n := next.value;
      WalkUnfold(step, available, c, count, found, budget, n);
      free := SlotAvailable(now, n);
    }

    /** The walk from the preferred instant `p`, as text pairs. */
    method WalkFrom(now: Moment, ghost step: Slot -> Option<Slot>, ghost available: Slot -> bool,
                    p: Slot, count: int, fuel: nat)
      returns (suggestions: seq<(string, string)>, complete: bool)
      requires ValidConfig(config) && WellFormed(p)
      requires forall x {:trigger NextCandidate(config, x)} :: step(x) == NextCandidate(config, x)
      requires forall x {:trigger Free(config, now, db.records, x)} :: available(x) == Free(config, now, db.records, x)
      requires forall x :: WellFormed(x) && step(x).Some? ==> WellFormed(step(x).value)
      ensures var w := Walk(step, available, p, count, [], fuel);
        AllWellFormed(w.found) && suggestions == Texts(w.found) && complete == w.complete
    {
      var c := p;
      var found: seq<Slot> := [];
      var budget := fuel;
      ghost var w := Walk(step, available, p, count, [], fuel);
      complete := true;
      while |found| < count && |found| < MaxSuggestions
        invariant WellFormed(c) && AllWellFormed(found)
        invariant w == Walk(step, available, c, count, found, budget)
        decreases budget
      {
        if budget == 0 {
          complete := false;
          break;
        }
        var next, free := WalkOnce(now, step, available, c, count, found, budget);
        if next.None? {
          return [], true;
        }
        c, found, budget := next.value, if free then found + [next.value] else found, budget - 1;
      }
      suggestions := Texts(found);
    }

    /**
      `suggest_alternative_slots(date, time, count)`: walk forward from the
      preferred instant and keep the bookable instants until `min(count, 10)`
      are kept. At most `fuel` candidates are tried; `complete` is false when
      that budget ran out first.
    */
    method SuggestAlternativeSlots(now: Moment, date: string, time: string, count: int, fuel: nat)
      returns (suggestions: seq<(string, string)>, complete: bool)
      requires Valid()
      ensures (suggestions, complete) == Suggest(config, now, db.records, date, time, count, fuel)
    {
      match ParseSlot(date, time)
      case None => return [], true;
      case Some(p) =>
        StepAdvances(config);
        suggestions, complete := WalkFrom(now, Step(config), Availability(config, now, db.records), p, count, fuel);
    }
  }
}
