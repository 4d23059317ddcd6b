# Healthcare voice assistant: appointment core

This project models the core of a voice assistant that books doctor's appointments, and proves properties of that model:

- **The slot validator** (`SlotValidator`). A requested date and time are accepted when the text parses as `%Y-%m-%d %H:%M`, the instant is at least one hour after "now", its hour falls in the working day 09:00–17:00, and its day is Monday to Friday.
- **The appointment store** (`AppointmentStore.Database`). This is the SQLite `appointments` table, modelled as a class holding the rows as a sequence. It has methods to insert, count, cancel, re-note and list rows.
- **The scheduling engine** (`Scheduling.AppointmentManager`). It books only free valid slots, cancels, updates notes and lists appointments. It also searches thirty days ahead for the next free slot and walks forward from a preferred slot to suggest alternatives.
- **The keyword classifier** (`IntentProcessing`). It turns what the caller said into:
  - an intent: book, check, cancel, exit or unknown;
  - a doctor;
  - a yes or no;
  - a spoken appointment summary.

Supporting modules hold the Python and SQLite behaviour the core relies on:

- `Text`: `lower`, `strip`, `capitalize`, substring and `\b…\b` regex search, and the BINARY text order used by `ORDER BY`.
- `Calendar`: proleptic Gregorian dates, `toordinal` and `weekday`, `strptime` and `strftime` for the two formats in use, and `datetime.max`.

The main invariant is "at most one scheduled row per (date, time)". This is `UniqueScheduled`, and the table itself does not enforce it. Every manager operation that writes to the store preserves it:

- booking checks the slot and then inserts;
- cancelling and re-noting only change matching rows.

The invariant compares the stored texts, not the instants they denote. `Scheduling.SameInstantTwoTexts` shows the consequence: after "9:00" is booked, "09:00" on the same day is still bookable.

The clock is a parameter everywhere: `now` for the validator and the searches, and `today` for SQLite's `date('now')`. Store failures are boolean parameters (`ioError`, `checkError`, `insertError`), so each method's failure result is explicit.

Two details of the code's conditions:

- **Notice boundary.** An appointment exactly at "now + 1 hour" is accepted: the code rejects only instants strictly before it (`SlotValidator.NoticeBoundary`).
- **Alternative-slot search.** The code bounds the number of suggestions (at most ten), not the number of candidates it examines. The model's `fuel` argument is a candidate budget that the code does not have, and `complete` reports whether the budget was enough (see "Left out").

## Model

| member | source | states |
|---|---|---|
| `Text.ContainsSpec` | src/nlp/intent_processor.py:190-193 | Python's `p in s` holds iff `p` occurs at some index of `s` |
| `Text.ContainsWordSpec` | src/nlp/intent_processor.py:84-86 | `re.search(rf'\b{p}\b', s)` matches iff `p` occurs at some index with a word boundary before and after it |
| `Text.LexLeTotal` | src/database/db_manager.py:92 | the text order used by `ORDER BY` compares any two texts |
| `Text.LexLeTransitive` | src/database/db_manager.py:99 | the text order used by `ORDER BY` is transitive |
| `Text.LexLeAntisymmetric` | src/database/db_manager.py:99 | two texts ordered both ways are equal |
| `Text.Strip` | src/nlp/intent_processor.py:69 | `str.strip()` keeps the infix of the text that starts after its leading whitespace and is followed only by whitespace, with no whitespace at either end of the result |
| `Text.StripInfix` | src/nlp/intent_processor.py:69 | what is left after stripping both ends is the infix after the leading whitespace |
| `Text.StripTrailing` | src/nlp/intent_processor.py:69 | everything after that infix is whitespace |
| `Calendar.ParseDate` | src/scheduling/appointment.py:133 | `strptime(date, '%Y-%m-%d')` yields only dates that exist (year 1..9999, month 1..12, day within the month) |
| `Calendar.ParseTime` | src/scheduling/appointment.py:218 | the `%H:%M` part yields a minute of the day in 0..1439 |
| `Calendar.ParseSlot` | src/scheduling/appointment.py:217-218 | `strptime(f"{date} {time}", '%Y-%m-%d %H:%M')` yields a valid date and a minute of the day |
| `Calendar.ParseSlotOf` | src/scheduling/appointment.py:217-218 | a date text and a time text that parse on their own parse together as that day and minute |
| `Calendar.ParseSlotJoinRun` | src/scheduling/appointment.py:217-218 | the format's space matches a whole whitespace run: whitespace after the date text or before the time text leaves the parsed instant unchanged |
| `Calendar.ParsedDateUnstripped` | src/scheduling/appointment.py:217-218 | a date text that parses ends in a digit, so none of it is taken for the separating whitespace |
| `Calendar.ParsedTimeUnstripped` | src/scheduling/appointment.py:217-218 | a time text that parses starts with a digit, so none of it is taken for the separating whitespace |
| `Text.StripRightPadded` | src/scheduling/appointment.py:217-218 | whitespace appended to a text is stripped with its own trailing whitespace |
| `Text.StripLeftPadded` | src/scheduling/appointment.py:217-218 | whitespace prepended to a text is stripped with its own leading whitespace |
| `Calendar.DateRoundTrip` | src/scheduling/appointment.py:137 | a date written with `strftime('%Y-%m-%d')` parses back to the same date |
| `Calendar.TimeRoundTrip` | src/scheduling/appointment.py:144 | a time written with `strftime('%H:%M')` parses back to the same minute |
| `Calendar.FormatDate` | src/scheduling/appointment.py:137 | `strftime('%Y-%m-%d')` writes ten characters with `-` at positions 4 and 7 (`DateRoundTrip` reads them back) |
| `Calendar.FormatTime` | src/scheduling/appointment.py:144 | `strftime('%H:%M')` writes two digits, a colon and two digits (`TimeRoundTrip` reads them back) |
| `Calendar.SlotRoundTrip` | src/scheduling/appointment.py:277-278 | the date and time texts of a slot parse back to that slot |
| `Calendar.FormatDateInjective` | src/scheduling/appointment.py:277 | distinct dates get distinct `%Y-%m-%d` texts |
| `Calendar.NextDay` | src/scheduling/appointment.py:156 | `+ timedelta(days=1)`: the following calendar day (its ordinal is one more, by `NextDayOrdinal`) |
| `Calendar.Weekday` | src/scheduling/appointment.py:233 | `weekday()` is a number in 0..6, Monday being 0 (`NextDayWeekday` shows it advances by one a day) |
| `Calendar.NextDayOrdinal` | src/scheduling/appointment.py:156 | adding one day raises the ordinal by exactly one, and stays valid below `datetime.max` |
| `Calendar.NextDayWeekday` | src/scheduling/appointment.py:233 | `weekday()` is in 0..6 and advances by one each day, Sunday wrapping to Monday |
| `Calendar.AddDaysOrdinal` | src/scheduling/appointment.py:136-156 | stepping day by day without reaching `datetime.max` gives valid dates with consecutive ordinals |
| `Calendar.AddDaysPastMax` | src/scheduling/appointment.py:156 | a walk that passes `datetime.max` leaves the year range, so the step overflows |
| `Calendar.LaterDay` | src/scheduling/appointment.py:264-266 | any time on a later day is a later instant |
| `SlotValidator.DefaultConfigValid` | src/scheduling/appointment.py:12-15 | the configured hours 9 and 17 and the 30-minute step satisfy `ValidConfig` (both hours in 0..23, a step of one minute up to a day) |
| `SlotValidator.IsValidSlot` | src/scheduling/appointment.py:204-239 | `_is_valid_datetime`: the texts parse, the instant is not before now plus the notice, its hour is in [`workStart`, `workEnd`) and its weekday is below 5 (the boundaries pinned by `NoticeBoundary`, `DefaultClosingHour` and `ScenarioRejected`, the parse failure by `UnparseableRejected`) |
| `SlotValidator.UnparseableRejected` | src/scheduling/appointment.py:238-239 | text that does not parse is rejected, never an error |
| `SlotValidator.NoticeBoundary` | src/scheduling/appointment.py:224 | an instant exactly at now plus the notice is accepted; one microsecond earlier is not |
| `SlotValidator.DefaultClosingHour` | src/scheduling/appointment.py:228-230 | 16:30 is in working hours; 17:00 and 08:59 are not |
| `SlotValidator.ScenarioDates` | src/scheduling/appointment.py:233 | 2025-01-06 parses to a Monday and 2025-01-04 parses to a Saturday |
| `SlotValidator.ScenarioMondayNine` | src/scheduling/appointment.py:218-236 | Monday 2025-01-06 09:00 is valid at 08:00 that day, and invalid one microsecond later |
| `SlotValidator.ScenarioRejected` | src/scheduling/appointment.py:228-234 | 08:30 on a Monday and 10:00 on a Saturday are rejected whatever the clock says |
| `AppointmentStore.CountScheduled` | src/database/db_manager.py:148-154 | the `COUNT(*)` of scheduled rows on the slot is at most the number of rows (zero exactly when the slot is free, by `CountZeroIffFree`) |
| `AppointmentStore.CountZeroIffFree` | src/database/db_manager.py:148-154 | the `COUNT(*)` of scheduled rows at (date, time) is zero iff no scheduled row occupies that slot |
| `AppointmentStore.UniqueCountsAtMostOne` | src/database/db_manager.py:148-153 | under the uniqueness invariant the count is at most one |
| `AppointmentStore.AppendUnique` | src/database/db_manager.py:62-65 | appending a row keeps uniqueness iff the table was unique and the new scheduled row's slot was free |
| `AppointmentStore.CancelMatching` | src/database/db_manager.py:122-126 | the cancelling `UPDATE` keeps the number of rows and changes no field of any row but its status |
| `AppointmentStore.RenoteMatching` | src/database/db_manager.py:175-179 | the notes `UPDATE` keeps the number of rows and changes no field of any row but its notes |
| `AppointmentStore.CancelFreesSlot` | src/database/db_manager.py:122-128 | after a cancel the slot is free and counts zero; a second cancel changes nothing |
| `AppointmentStore.CancelKeepsUnique` | src/database/db_manager.py:122-126 | cancelling preserves uniqueness |
| `AppointmentStore.RenoteKeepsSlots` | src/database/db_manager.py:175-179 | changing notes changes neither uniqueness nor which slots are free |
| `AppointmentStore.Selection` | src/database/db_manager.py:88-100 | the listing's `WHERE` keeps no more rows than there are (which ones, by `SelectionMembers`) |
| `AppointmentStore.SelectionMembers` | src/database/db_manager.py:88-100 | the rows selected are exactly the table's scheduled rows on the date, or dated today or later when no date is given |
| `AppointmentStore.KeyLeTotal` | src/database/db_manager.py:99 | `ORDER BY date, time` compares any two rows |
| `AppointmentStore.KeyLeTransitive` | src/database/db_manager.py:99 | `ORDER BY date, time` is transitive |
| `AppointmentStore.SortedOneDate` | src/database/db_manager.py:92 | rows of one date sorted by (date, time) are in time order, as `ORDER BY time` returns them |
| `AppointmentStore.InsertByKeySorted` | src/database/db_manager.py:99 | inserting a row into a sorted listing keeps it sorted and adds exactly that row |
| `AppointmentStore.InsertByKeyPermutes` | src/database/db_manager.py:102 | insertion keeps every row and adds the new one |
| `AppointmentStore.Database.constructor` | src/database/db_manager.py:27-38 | a fresh table has no rows |
| `AppointmentStore.Database.AddAppointment` | src/database/db_manager.py:46-71 | on success exactly one scheduled row with the next id and the given fields is appended and nothing else changes, and that id exceeds every earlier one as `AUTOINCREMENT` promises (the `Valid` invariant, ids 1, 2, … in row order); on failure nothing changes and the result is false |
| `AppointmentStore.Database.CheckAvailability` | src/database/db_manager.py:134-158 | the slot is reported free iff the store answers and no scheduled row has that date and time |
| `AppointmentStore.Database.CancelAppointment` | src/database/db_manager.py:108-132 | every scheduled row at (date, time) becomes cancelled and all else is unchanged; the result is true iff some row changed |
| `AppointmentStore.Database.UpdateAppointmentNotes` | src/database/db_manager.py:160-185 | only the notes of scheduled rows at (date, time) change; the result is true iff some row changed |
| `AppointmentStore.Database.GetAppointments` | src/database/db_manager.py:73-106 | returns exactly the selected rows, as a permutation sorted by (date, time) and in time order for a given date; returns `[]` on a store failure |
| `Scheduling.FreeIffBookable` | src/scheduling/appointment.py:277-280 | a slot the searches try is accepted by `is_available` on its formatted texts iff it is valid and unoccupied |
| `Scheduling.BookingTakesSlot` | src/scheduling/appointment.py:36-44 | after a bookable slot is booked it is no longer bookable |
| `Scheduling.SameInstantTwoTexts` | src/scheduling/appointment.py:40-44 | "9:00" and "09:00" denote the same instant, yet booking one leaves the other bookable |
| `Scheduling.SameInstantOtherText` | src/scheduling/appointment.py:40-44 | for any two different texts of one instant, booking one leaves the other bookable |
| `Scheduling.SearchFrom` | src/scheduling/appointment.py:136-156 | a slot the search finds is within the 30 days, before closing, available, and reached without passing `datetime.max` |
| `Scheduling.StartDate` | src/scheduling/appointment.py:130-133 | the starting date, given or today's, is a valid date |
| `Scheduling.SearchFirst` | src/scheduling/appointment.py:136-150 | the search returns a position no later, in day-then-time order, than any available slot within the horizon |
| `Scheduling.NextSlot` | src/scheduling/appointment.py:119-162 | `get_next_available_slot`: the texts of the first free slot in day-then-time order, or none (stated by `NextSlotSound` and `NextSlotEarliest`) |
| `Scheduling.NextSlotSound` | src/scheduling/appointment.py:119-162 | the next slot found is bookable, lies within 30 days of the start, is in working hours, on a weekday and at `workStart:00` plus a whole number of steps |
| `Scheduling.NextSlotEarliest` | src/scheduling/appointment.py:136-150 | if any grid slot in the 30 days is free, a slot is found and it is no later than that one |
| `Scheduling.StepForward` | src/scheduling/appointment.py:260-267 | the step of one duration, rolling over to `workStart:00` of the next day at `workEnd`, or none past `datetime.max` (it moves forward, by `StepForwardAdvances`) |
| `Scheduling.SkipWeekend` | src/scheduling/appointment.py:269-275 | the weekend loop in closed form: a weekday stays, Saturday and Sunday move to Monday at `workStart:00` (`SkipWeekendLands`) |
| `Scheduling.NextCandidate` | src/scheduling/appointment.py:258-275 | one candidate move: the step and then the weekend skip (a later valid weekday slot, by `StepAdvances`) |
| `Scheduling.StepForwardAdvances` | src/scheduling/appointment.py:260-267 | one step forward, with the roll-over to the next opening, gives a later valid slot |
| `Scheduling.SkipWeekendStep` | src/scheduling/appointment.py:270-275 | one pass of the weekend loop moves to the next day's opening and keeps the loop's outcome |
| `Scheduling.SkipWeekendLands` | src/scheduling/appointment.py:270-275 | the weekend loop ends on a weekday no earlier than where it began |
| `Scheduling.StepAdvances` | src/scheduling/appointment.py:258-275 | every candidate is a valid weekday slot strictly later than the one before |
| `Scheduling.WalkGood` | src/scheduling/appointment.py:258-284 | a walk whose steps go forward keeps only available candidates, ascending and past the start, and at most `min(count, 10)` of them |
| `Scheduling.WalkUnfold` | src/scheduling/appointment.py:260-284 | one candidate of the walk: it is kept exactly when the test accepts it, and the walk goes on from it |
| `Scheduling.WalkKeepsPrefix` | src/scheduling/appointment.py:280-284 | the walk only appends: its result extends what was kept, unless an overflow ends it with nothing |
| `Scheduling.WalkKeepsAccepted` | src/scheduling/appointment.py:280-284 | an accepted candidate is kept right after what was kept before it, unless an overflow ends the walk with nothing |
| `Scheduling.WalkEmptyOverflows` | src/scheduling/appointment.py:262-290 | asked for at least one slot, a walk that finished with none met an overflow past `datetime.max` |
| `Scheduling.WalkFirstKept` | src/scheduling/appointment.py:258-284 | from nothing kept, an accepted first candidate is the first slot kept, unless the walk overflows |
| `Scheduling.SuggestWalk` | src/scheduling/appointment.py:253-286 | the suggestion walk keeps free, ascending weekday slots after the preferred one, never more than `count` or ten |
| `Scheduling.Suggest` | src/scheduling/appointment.py:241-290 | `suggest_alternative_slots` with a candidate budget: the suggestion texts and whether the walk finished (stated by `SuggestGood`) |
| `Scheduling.InstantOfTexts` | src/scheduling/appointment.py:277-280 | the date and time texts written for a slot denote that slot's instant |
| `Scheduling.TextsGood` | src/scheduling/appointment.py:277-284 | the texts of free, ascending slots are bookable, on weekdays, later than the preferred slot and ascending |
| `Scheduling.SuggestGood` | src/scheduling/appointment.py:241-290 | each suggestion is bookable, on a weekday and strictly after the preferred instant; they ascend; at most `count` and ten; a walk within budget returns exactly `min(count, 10)` when it finds any; `count <= 0` gives none |
| `Scheduling.SuggestIsWalk` | src/scheduling/appointment.py:253-290 | for a preferred slot that parses, the suggestions are the texts of the slots the walk keeps |
| `Scheduling.SuggestKeepsFirstFree` | src/scheduling/appointment.py:258-284 | the first free candidate after the preferred slot is the first suggestion, unless the walk passes `datetime.max` and returns nothing |
| `Scheduling.SuggestEmptyOverflows` | src/scheduling/appointment.py:262-290 | with `count > 0`, a finished search with no suggestions passed `datetime.max` |
| `Scheduling.SuggestUnparseable` | src/scheduling/appointment.py:254-290 | an unparseable preferred slot gives no suggestions |
| `Scheduling.AppointmentManager.constructor` | src/scheduling/appointment.py:7-15 | the manager uses the given store and the configuration 9, 17, 30, 1 |
| `Scheduling.AppointmentManager.IsAvailable` | src/scheduling/appointment.py:96-117 | true iff the slot is valid, the store answers and the slot is unoccupied |
| `Scheduling.AppointmentManager.Schedule` | src/scheduling/appointment.py:21-53 | books iff the slot is valid and free and the store succeeds; reports invalid, taken or failed otherwise; appends exactly the one row; preserves uniqueness; the slot is then taken |
| `Scheduling.AppointmentManager.Cancel` | src/scheduling/appointment.py:55-76 | succeeds iff the store answers and a scheduled row occupies the slot; the slot is then free and uniqueness is kept |
| `Scheduling.AppointmentManager.UpdateNotes` | src/scheduling/appointment.py:180-202 | succeeds iff a scheduled row occupies the slot; only its notes change; uniqueness is kept |
| `Scheduling.AppointmentManager.GetAppointments` | src/scheduling/appointment.py:78-94 | the store's listing: exactly the selected rows, sorted, or `[]` on failure |
| `Scheduling.AppointmentManager.GetDailySchedule` | src/scheduling/appointment.py:164-178 | for a date, exactly that day's scheduled rows in time order; an empty date gives the upcoming listing; `[]` on failure |
| `Scheduling.AppointmentManager.SlotAvailable` | src/scheduling/appointment.py:144-146 | `is_available` on the formatted texts of a slot answers whether that slot is free |
| `Scheduling.AppointmentManager.SearchSlots` | src/scheduling/appointment.py:136-158 | the nested day and time loops return the texts of the first free slot in day-then-time order, or nothing |
| `Scheduling.AppointmentManager.NextAvailableSlot` | src/scheduling/appointment.py:119-162 | returns exactly the specified next slot, which `NextSlotSound` and `NextSlotEarliest` characterise |
| `Scheduling.AppointmentManager.StepOn` | src/scheduling/appointment.py:260-267 | the step forward with the roll-over after closing, or an overflow |
| `Scheduling.AppointmentManager.SkipWeekendFrom` | src/scheduling/appointment.py:270-275 | the weekend loop reaches the closed-form weekend skip |
| `Scheduling.AppointmentManager.Advance` | src/scheduling/appointment.py:260-275 | one candidate move of the suggestion loop |
| `Scheduling.AppointmentManager.WalkOnce` | src/scheduling/appointment.py:260-284 | one pass of the suggestion loop: an overflow ends the walk with no suggestions, otherwise the walk continues from the new candidate |
| `Scheduling.AppointmentManager.WalkFrom` | src/scheduling/appointment.py:253-286 | the suggestion loop returns the formatted slots of the specified walk |
| `Scheduling.AppointmentManager.SuggestAlternativeSlots` | src/scheduling/appointment.py:241-290 | returns exactly the specified suggestions, which `SuggestGood` characterises |
| `IntentProcessing.AnyWordSpec` | src/nlp/intent_processor.py:85 | `any(...)` over the patterns holds iff some pattern matches as a whole word |
| `IntentProcessing.DetectInFirstMatch` | src/nlp/intent_processor.py:84-86 | the first table entry with a matching pattern gives the intent |
| `IntentProcessing.DetectInNoMatch` | src/nlp/intent_processor.py:87 | with no matching entry the intent is unknown |
| `IntentProcessing.DetectIntent` | src/nlp/intent_processor.py:82-87 | the first intent of the table, in order, with a whole-word pattern in the text, else unknown (stated by `DetectIntentSpec`) |
| `IntentProcessing.DetectIntentSpec` | src/nlp/intent_processor.py:20-48 | each intent is chosen iff one of its patterns matches and no pattern of an earlier intent (schedule, check, cancel, exit) does; unknown iff none matches |
| `IntentProcessing.ScheduleBeatsCancel` | src/nlp/intent_processor.py:21-41 | the word "book" makes the request a booking whatever cancel words occur |
| `IntentProcessing.RescheduleIsCancel` | src/nlp/intent_processor.py:36-41 | "reschedule" is classified as a cancellation, not a booking |
| `IntentProcessing.MentionAt` | src/nlp/intent_processor.py:164 | a `dr\.?\s+(\w+)` match captures a non-empty run of word characters |
| `IntentProcessing.FindMentionSpec` | src/nlp/intent_processor.py:164 | `re.search` finds the leftmost match |
| `IntentProcessing.FindMentionNone` | src/nlp/intent_processor.py:164 | with no match at any index the search finds nothing |
| `IntentProcessing.AnySubstringSpec` | src/nlp/intent_processor.py:170 | `any(k in text ...)` holds iff some keyword occurs at some index |
| `IntentProcessing.SpecialtyInFirstMatch` | src/nlp/intent_processor.py:169-173 | the first specialty in table order with a keyword present is chosen |
| `IntentProcessing.SpecialtyInNoMatch` | src/nlp/intent_processor.py:169-176 | with no keyword present no specialty is chosen |
| `IntentProcessing.ExtractDoctor` | src/nlp/intent_processor.py:159-176 | the result always begins "Dr. " and is never missing |
| `IntentProcessing.NamedDoctorFirst` | src/nlp/intent_processor.py:164-166 | the leftmost "dr <name>" gives "Dr. " and the capitalised name, ahead of any specialty |
| `IntentProcessing.SpecialtyChosen` | src/nlp/intent_processor.py:168-173 | without a named doctor, the first specialty with a keyword present gives "Dr. <Specialty> (Specialist)" |
| `IntentProcessing.DefaultDoctorChosen` | src/nlp/intent_processor.py:175-176 | with neither, the result is "Dr. General (General Physician)" |
| `IntentProcessing.HeartDoctorIsGeneral` | src/nlp/intent_processor.py:51-53 | "heart doctor" contains the general keyword "doctor", which is tried first, so the general specialty is chosen |
| `IntentProcessing.Normalize` | src/nlp/intent_processor.py:69 | `text.lower().strip()`, also applied at line 188 (the lower-cased text's infix after its leading whitespace, with only whitespace after it, by `Text.Strip`) |
| `IntentProcessing.GetConfirmation` | src/nlp/intent_processor.py:178-193 | `get_confirmation`: a confirmation word occurs in the normalized reply and no denial word does (stated by `ConfirmationSpec`) |
| `IntentProcessing.ConfirmationSpec` | src/nlp/intent_processor.py:188-193 | a reply confirms iff, after lower-casing and stripping, some confirmation word occurs as a substring and no denial word does |
| `IntentProcessing.BookConfirms` | src/nlp/intent_processor.py:190-193 | a reply containing "book" confirms, through "ok", unless a denial occurs |
| `IntentProcessing.ConfirmsWithin` | src/nlp/intent_processor.py:190-191 | a text containing "book" contains the confirmation word "ok" |
| `IntentProcessing.KnowDenies` | src/nlp/intent_processor.py:191-193 | a reply containing "know" never confirms, through "no" |
| `IntentProcessing.ExtractAppointmentEntities` | src/nlp/intent_processor.py:89-112 | the entities always have date, time and doctor keys; the doctor is always set; date and time are set iff extraction succeeded |
| `IntentProcessing.Process` | src/nlp/intent_processor.py:59-80 | the intent is that of the lower-cased, stripped text; entities, with the doctor, only for booking or cancelling, otherwise empty |
| `IntentProcessing.LongDate` | src/nlp/intent_processor.py:212 | `strftime('%A, %B %d, %Y')`: the weekday's and month's names, the two-digit day and the four-digit year |
| `IntentProcessing.ClockTime` | src/nlp/intent_processor.py:213 | `strftime('%I:%M %p')` writes eight characters, `hh:mm` then a space then AM or PM |
| `IntentProcessing.ClockTimeReadsBack` | src/nlp/intent_processor.py:213 | `%I:%M %p` gives an hour in 1..12, the minutes and AM or PM, from which the time of day is recovered |
| `IntentProcessing.FormatAppointmentSummary` | src/nlp/intent_processor.py:205-206 | a missing, `None` or empty date or time gives the "couldn't understand" message |
| `IntentProcessing.SummaryRejectsUnparseable` | src/nlp/intent_processor.py:208-210 | a date or time that does not parse gives the formatting-error message |
| `IntentProcessing.SummaryOfSlot` | src/nlp/intent_processor.py:208-217 | entities holding a slot's stored texts are summarised with its weekday, month, day, year and twelve-hour time |

## Left out

- The spaCy pipeline and `_extract_datetime` are not modelled. They depend on a language model, dateutil's fuzzy parser and the clock. `Process` takes the date and time extraction as a function parameter.
- Speech input and output, the voice loop, configuration loading and sample-data seeding are not part of this model. The speech handler, the entry point, the configuration module, the package initialiser and the data scripts are I/O around the core.
- The clock is not modelled. `now` and `today` are parameters, and `date('now')`, which SQLite takes in UTC, is the `today` text. Each model operation uses one `now` throughout, while the code calls `datetime.now()` afresh in every `_is_valid_datetime` (src/scheduling/appointment.py:221): twice per booking (lines 36 and 40 through `is_available`) and once per candidate in both searches (lines 146 and 280). The model does not capture a clock that advances between those reads.
- `created_at` and `updated_at` are not kept. The database path, directory creation and connections are not modelled.
- Logging is not modelled. Exceptions other than the modelled store failures and parse failures are not modelled either.
- Concurrency is not modelled. Two callers interleaving check-then-insert could both book a slot. The uniqueness proofs hold for one caller at a time.
- Text handling is ASCII only:
  - `lower`, `capitalize` and the regex class `\w` cover ASCII letters, where Python's are Unicode-aware;
  - `strptime` is modelled without its acceptance of Unicode digits and single-space padding.
- Years: parsing accepts exactly four digits, as `%Y` does, and formatting writes years before 1000 with four digits, where the platform's `strftime` may not pad them. In the summary and in both searches the model then pads such a year; with an unpadded "999-…" text the code's own `strptime` in `is_available` would fail `%Y` and reject every candidate of that year.
- `Scheduling.AppointmentManager.SuggestAlternativeSlots` takes a `fuel` bound on the candidates examined, which the code does not have. The code walks forward until it has enough suggestions or the date passes `datetime.max`. When the fuel runs out first, the model returns what it has found with `complete` false.
- `Scheduling.SkipWeekend`: the weekend loop is specified in closed form (Saturday moves two days, Sunday one). The loop itself is modelled in `SkipWeekendFrom` and proved to reach that form.
- The manager's searches (`NextAvailableSlot`, `SuggestAlternativeSlots`) assume every store call answers. Store failures are modelled on the single-call operations only.
- `Scheduling.AppointmentManager.constructor` takes the store as an argument instead of opening its own.
- `Scheduling.AppointmentManager.WalkFrom` formats the suggestions after the loop, where the code formats each one as it is found. The resulting texts are the same.
- The listings return row values, not dictionaries with every column.
- `ValidConfig` bounds the step to at most a day and the hours to 0..23. Both hold for the configured values.
