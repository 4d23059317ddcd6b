/**
  The assistant's rule-based reading of what the caller said: which request
  it is (a first-match over a keyword table with whole-word matching), which
  doctor is meant, whether a reply is a yes, and the spoken summary of an
  appointment before it is confirmed.
  The date and time extraction, which leans on a fuzzy date parser and the
  clock, is a parameter of `Process`.
*/
module IntentProcessing {
  import opened Wrappers
  import opened Text
  import opened Calendar

  datatype Intent = ScheduleAppointment | CheckAppointments | CancelAppointment | Exit | Unknown

  const SchedulePatterns: seq<string> := ["schedule", "book", "make", "set up", "arrange"]
  const CheckPatterns: seq<string> := ["check", "view", "show", "list", "what are", "do i have"]
  const CancelPatterns: seq<string> := ["cancel", "delete", "remove", "reschedule"]
  const ExitPatterns: seq<string> := ["exit", "quit", "goodbye", "bye"]

  /** The intent table in the order the classifier tries it. */
  const IntentTable: seq<(Intent, seq<string>)> := [
    (ScheduleAppointment, SchedulePatterns),
    (CheckAppointments, CheckPatterns),
    (CancelAppointment, CancelPatterns),
    (Exit, ExitPatterns)
  ]

  /** Some pattern of `patterns` matches `text` as a whole word (`\bpattern\b`). */
  function AnyWord(text: string, patterns: seq<string>): bool {
    if patterns == [] then false
    else ContainsWord(text, patterns[0]) || AnyWord(text, patterns[1..])
  }

  lemma {:induction false} AnyWordSpec(text: string, patterns: seq<string>)
    ensures AnyWord(text, patterns) <==> exists k :: 0 <= k < |patterns| && ContainsWord(text, patterns[k])
  {
    if patterns != [] {
      AnyWordSpec(text, patterns[1..]);
      if k :| 0 <= k < |patterns| && ContainsWord(text, patterns[k]) {
        assert k == 0 || patterns[1..][k - 1] == patterns[k];
      }
    }
  }

  /** The first entry of `table` with a matching pattern names the intent. */
  function DetectIn(text: string, table: seq<(Intent, seq<string>)>): Intent {
    if table == [] then Unknown
    else if AnyWord(text, table[0].1) then table[0].0
    else DetectIn(text, table[1..])
  }

  lemma {:induction false} DetectInFirstMatch(text: string, table: seq<(Intent, seq<string>)>, k: nat)
    requires k < |table| && AnyWord(text, table[k].1)
    requires forall j :: 0 <= j < k ==> !AnyWord(text, table[j].1)
    ensures DetectIn(text, table) == table[k].0
  {
    if k > 0 {
      assert !AnyWord(text, table[0].1);
      forall j | 0 <= j < k - 1
        ensures !AnyWord(text, table[1..][j].1)
      {
        assert table[1..][j] == table[j + 1];
      }
      DetectInFirstMatch(text, table[1..], k - 1);
    }
  }

  lemma {:induction false} DetectInNoMatch(text: string, table: seq<(Intent, seq<string>)>)
    requires forall j :: 0 <= j < |table| ==> !AnyWord(text, table[j].1)
    ensures DetectIn(text, table) == Unknown
  {
    if table != [] {
      assert !AnyWord(text, table[0].1);
      forall j | 0 <= j < |table| - 1
        ensures !AnyWord(text, table[1..][j].1)
      {
        assert table[1..][j] == table[j + 1];
      }
      DetectInNoMatch(text, table[1..]);
    }
  }

  /** `_detect_intent`: the classifier applied to already normalised text. */
  function DetectIntent(text: string): Intent {
    DetectIn(text, IntentTable)
  }

  /**
    The classification as a decision list: each intent is chosen exactly when
    one of its patterns matches and no pattern of an earlier intent does.
  */
  lemma DetectIntentSpec(text: string)
    ensures DetectIntent(text) == ScheduleAppointment <==> AnyWord(text, SchedulePatterns)
    ensures DetectIntent(text) == CheckAppointments <==>
      !AnyWord(text, SchedulePatterns) && AnyWord(text, CheckPatterns)
    ensures DetectIntent(text) == CancelAppointment <==>
      !AnyWord(text, SchedulePatterns) && !AnyWord(text, CheckPatterns) && AnyWord(text, CancelPatterns)
    ensures DetectIntent(text) == Exit <==>
      !AnyWord(text, SchedulePatterns) && !AnyWord(text, CheckPatterns) && !AnyWord(text, CancelPatterns)
      && AnyWord(text, ExitPatterns)
    ensures DetectIntent(text) == Unknown <==>
      !AnyWord(text, SchedulePatterns) && !AnyWord(text, CheckPatterns) && !AnyWord(text, CancelPatterns)
      && !AnyWord(text, ExitPatterns)
  {
    var t := IntentTable;
    if AnyWord(text, SchedulePatterns) {
      DetectInFirstMatch(text, t, 0);
    } else if AnyWord(text, CheckPatterns) {
      DetectInFirstMatch(text, t, 1);
    } else if AnyWord(text, CancelPatterns) {
      DetectInFirstMatch(text, t, 2);
    } else if AnyWord(text, ExitPatterns) {
      DetectInFirstMatch(text, t, 3);
    } else {
      DetectInNoMatch(text, t);
    }
  }

  /** A whole-word occurrence of a schedule keyword wins over any cancel keyword. */
  lemma ScheduleBeatsCancel(text: string, i: int)
    requires WholeWordAt(text, "book", i)
    ensures DetectIntent(text) == ScheduleAppointment
  {
    ContainsWordSpec(text, "book");
    assert ContainsWord(text, SchedulePatterns[1]);
    AnyWordSpec(text, SchedulePatterns);
    DetectIntentSpec(text);
  }

  /** "reschedule" never counts as the word "schedule": it is read as a cancellation. */
  lemma RescheduleIsCancel()
    ensures DetectIntent("reschedule") == CancelAppointment
  {
    RescheduleNotScheduling("reschedule");
    RescheduleNotChecking("reschedule");
    RescheduleCancelling();
    DetectIntentSpec("reschedule");
  }

  lemma RescheduleNotScheduling(s: string)
    requires s == "reschedule"
    ensures !AnyWord(s, SchedulePatterns)
  {
    assert !WholeWordAt(s, "schedule", 2) by {
      assert WordCharAt(s, 1) && WordCharAt(s, 2);
    }
    assert s[0] != 's' && s[1] != 's';
    ContainsWordSpec(s, "schedule");
    MissingCharsNoWord(s, SchedulePatterns[1..], "bmta");
  }

  lemma RescheduleNotChecking(s: string)
    requires s == "reschedule"
    ensures !AnyWord(s, CheckPatterns)
  {
    MissingCharsNoWord(s, CheckPatterns, "kvwtwo");
  }

  /** Patterns that each hold a character the text lacks cannot match it. */
  lemma {:induction false} MissingCharsNoWord(s: string, patterns: seq<string>, missing: string)
    requires |missing| == |patterns|
    requires forall k :: 0 <= k < |patterns| ==> missing[k] in patterns[k] && missing[k] !in s
    ensures !AnyWord(s, patterns)
  {
    if patterns != [] {
      MissingCharNoWord(s, patterns[0], missing[0]);
      MissingCharsNoWord(s, patterns[1..], missing[1..]);
    }
  }

  /** A pattern with a character the text lacks cannot match it. */
  lemma MissingCharNoWord(s: string, p: string, c: char)
    requires c in p && c !in s
    ensures !ContainsWord(s, p)
  {
    ContainsWordSpec(s, p);
  }

  lemma RescheduleCancelling()
    ensures AnyWord("reschedule", CancelPatterns)
  {
    assert WholeWordAt("reschedule", "reschedule", 0);
  }

  /** `text.lower().strip()` */
  function Normalize(text: string): string {
    Strip(Lower(text))
  }

  /** The index just past the run of characters of class `inClass` that starts at `j`. */
  function RunEnd(s: string, j: nat, inClass: char -> bool): (k: nat)
    requires j <= |s|
    ensures j <= k <= |s|
    ensures forall i :: j <= i < k ==> inClass(s[i])
    ensures k < |s| ==> !inClass(s[k])
    decreases |s| - j
  {
    if j < |s| && inClass(s[j]) then RunEnd(s, j + 1, inClass) else j
  }

  /**
    The name captured by `dr\.?\s+(\w+)` when the pattern matches at index `i`:
    "dr", an optional dot, at least one blank, then the longest run of word
    characters.
  */
  function MentionAt(s: string, i: nat): (r: Option<string>)
    ensures r.Some? ==> r.value != [] && forall c :: c in r.value ==> IsWordChar(c)
  {
    if i + 2 <= |s| && s[i] == 'd' && s[i + 1] == 'r' then
      var j := if i + 2 < |s| && s[i + 2] == '.' then i + 3 else i + 2;
      var k := RunEnd(s, j, IsSpace);
      if j < k < |s| && IsWordChar(s[k]) then
        var e := RunEnd(s, k, IsWordChar);
        assert forall c :: c in s[k..e] ==> IsWordChar(c) by {
          forall c | c in s[k..e] ensures IsWordChar(c) {
            var x :| 0 <= x < e - k && s[k..e][x] == c;
            assert s[k + x] == c;
          }
        }
        Some(s[k..e])
      else None
    else None
  }

  /** `re.search`: the leftmost match at or after index `i`. */
  function FindMention(s: string, i: nat): (r: Option<string>)
    ensures r.Some? ==> r.value != []
    decreases |s| - i
  {
    if i >= |s| then None
    else if MentionAt(s, i).Some? then MentionAt(s, i)
    else FindMention(s, i + 1)
  }

  lemma {:induction false} FindMentionSpec(s: string, i: nat, k: nat)
    requires i <= k && MentionAt(s, k).Some?
    requires forall j :: i <= j < k ==> MentionAt(s, j).None?
    ensures FindMention(s, i) == MentionAt(s, k)
    decreases k - i
  {
    if i < k {
      FindMentionSpec(s, i + 1, k);
    }
  }

  lemma {:induction false} FindMentionNone(s: string, i: nat)
    requires forall j :: i <= j ==> MentionAt(s, j).None?
    ensures FindMention(s, i) == None
    decreases |s| - i
  {
    if i < |s| {
      FindMentionNone(s, i + 1);
    }
  }

  /** A text holding `p` at `i` holds every piece `q` of `p`, at the matching offset. */
  lemma OccursInside(t: string, p: string, i: int, q: string, x: nat)
    requires OccursAt(t, p, i)
    requires x + |q| <= |p| && forall y :: 0 <= y < |q| ==> p[x + y] == q[y]
    ensures OccursAt(t, q, i + x)
  {
    forall y | 0 <= y < |q|
      ensures t[i + x + y] == q[y]
    {
      assert t[i..i + |p|][x + y] == p[x + y];
    }
    assert t[i + x..i + x + |q|] == q;
  }

  /** Some word of `words` occurs in `text` as a substring (Python's `w in text`). */
  function AnySubstring(text: string, words: seq<string>): bool {
    if words == [] then false
    else Contains(text, words[0]) || AnySubstring(text, words[1..])
  }

  lemma {:induction false} AnySubstringSpec(text: string, words: seq<string>)
    ensures AnySubstring(text, words) <==> exists k, i :: 0 <= k < |words| && OccursAt(text, words[k], i)
  {
    if words != [] {
      AnySubstringSpec(text, words[1..]);
      ContainsSpec(text, words[0]);
      if k, i :| 0 <= k < |words| && OccursAt(text, words[k], i) {
        if k > 0 {
          assert OccursAt(text, words[1..][k - 1], i);
        }
      }
      if AnySubstring(text, words[1..]) {
        var k, i :| 0 <= k < |words| - 1 && OccursAt(text, words[1..][k], i);
        assert OccursAt(text, words[k + 1], i);
      }
    }
  }

  const Specialties: seq<(string, seq<string>)> := [
    ("general", ["doctor", "physician", "gp", "general practitioner"]),
    ("cardiology", ["cardiologist", "heart doctor", "heart specialist"]),
    ("dermatology", ["dermatologist", "skin doctor", "skin specialist"]),
    ("pediatrics", ["pediatrician", "children doctor", "child specialist"]),
    ("neurology", ["neurologist", "brain doctor", "nerve specialist"])
  ]

  /** The first specialty in table order with a keyword occurring in `text`. */
  function SpecialtyIn(text: string, table: seq<(string, seq<string>)>): Option<string> {
    if table == [] then None
    else if AnySubstring(text, table[0].1) then Some(table[0].0)
    else SpecialtyIn(text, table[1..])
  }

  lemma {:induction false} SpecialtyInFirstMatch(text: string, table: seq<(string, seq<string>)>, k: nat)
    requires k < |table| && AnySubstring(text, table[k].1)
    requires forall j :: 0 <= j < k ==> !AnySubstring(text, table[j].1)
    ensures SpecialtyIn(text, table) == Some(table[k].0)
  {
    if k > 0 {
      assert !AnySubstring(text, table[0].1);
      forall j | 0 <= j < k - 1
        ensures !AnySubstring(text, table[1..][j].1)
      {
        assert table[1..][j] == table[j + 1];
      }
      SpecialtyInFirstMatch(text, table[1..], k - 1);
    }
  }

  lemma {:induction false} SpecialtyInNoMatch(text: string, table: seq<(string, seq<string>)>)
    requires forall j :: 0 <= j < |table| ==> !AnySubstring(text, table[j].1)
    ensures SpecialtyIn(text, table) == None
  {
    if table != [] {
      assert !AnySubstring(text, table[0].1);
      forall j | 0 <= j < |table| - 1
        ensures !AnySubstring(text, table[1..][j].1)
      {
        assert table[1..][j] == table[j + 1];
      }
      SpecialtyInNoMatch(text, table[1..]);
    }
  }

  const DefaultDoctor := "Dr. General (General Physician)"

  /** How a specialty is announced: "Dr. Cardiology (Specialist)". */
  function SpecialistTitle(specialty: string): string {
    "Dr. " + Capitalize(specialty) + " (Specialist)"
  }

  /** `_extract_doctor`: a named doctor, else a specialty, else the general physician. */
  function ExtractDoctor(text: string): (r: string)
    ensures |r| > 4 && r[..4] == "Dr. "
  {
    var t := Lower(text);
    match FindMention(t, 0)
    case Some(name) => "Dr. " + Capitalize(name)
    case None =>
      match SpecialtyIn(t, Specialties)
      case Some(specialty) => SpecialistTitle(specialty)
      case None => DefaultDoctor
  }

  /** The leftmost "dr <name>" in the text decides, whatever specialty words follow. */
  lemma NamedDoctorFirst(text: string, k: nat)
    requires MentionAt(Lower(text), k).Some?
    requires forall j :: 0 <= j < k ==> MentionAt(Lower(text), j).None?
    ensures ExtractDoctor(text) == "Dr. " + Capitalize(MentionAt(Lower(text), k).value)
  {
    FindMentionSpec(Lower(text), 0, k);
  }

  /** Without a named doctor, the first specialty in table order with a keyword present decides. */
  lemma SpecialtyChosen(text: string, k: nat)
    requires forall j :: 0 <= j ==> MentionAt(Lower(text), j).None?
    requires k < |Specialties| && AnySubstring(Lower(text), Specialties[k].1)
    requires forall j :: 0 <= j < k ==> !AnySubstring(Lower(text), Specialties[j].1)
    ensures ExtractDoctor(text) == SpecialistTitle(Specialties[k].0)
  {
    FindMentionNone(Lower(text), 0);
    SpecialtyInFirstMatch(Lower(text), Specialties, k);
  }

  /** With neither a named doctor nor a specialty keyword the general physician is chosen. */
  lemma DefaultDoctorChosen(text: string)
    requires forall j :: 0 <= j ==> MentionAt(Lower(text), j).None?
    requires forall j :: 0 <= j < |Specialties| ==> !AnySubstring(Lower(text), Specialties[j].1)
    ensures ExtractDoctor(text) == DefaultDoctor
  {
    FindMentionNone(Lower(text), 0);
    SpecialtyInNoMatch(Lower(text), Specialties);
  }

  /**
    Every "... doctor" specialty phrase contains the general keyword "doctor",
    which is tried first: asking for a heart doctor gets the general specialty.
  */
  lemma HeartDoctorIsGeneral(text: string, i: int)
    requires forall j :: 0 <= j ==> MentionAt(Lower(text), j).None?
    requires OccursAt(Lower(text), "heart doctor", i)
    ensures ExtractDoctor(text) == SpecialistTitle("general")
  {
    var t := Lower(text);
    OccursInside(t, "heart doctor", i, Specialties[0].1[0], 6);
    AnySubstringSpec(t, Specialties[0].1);
    SpecialtyChosen(text, 0);
  }

  const Confirmations: seq<string> := ["yes", "yeah", "yep", "sure", "okay", "ok", "confirm"]
  const Denials: seq<string> := ["no", "nope", "nah", "cancel", "don't"]

  /** `get_confirmation`: a confirmation word occurs and no denial word does, as substrings. */
  function GetConfirmation(text: string): bool {
    var t := Normalize(text);
    AnySubstring(t, Confirmations) && !AnySubstring(t, Denials)
  }

  lemma ConfirmationSpec(text: string)
    ensures GetConfirmation(text) <==>
      (exists k, i :: 0 <= k < |Confirmations| && OccursAt(Normalize(text), Confirmations[k], i))
      && !(exists k, i :: 0 <= k < |Denials| && OccursAt(Normalize(text), Denials[k], i))
  {
    AnySubstringSpec(Normalize(text), Confirmations);
    AnySubstringSpec(Normalize(text), Denials);
  }

  /** Substring matching reads "book" as containing "ok": it confirms unless a denial occurs. */
  lemma BookConfirms(text: string, i: int)
    requires OccursAt(Normalize(text), "book", i)
    requires !AnySubstring(Normalize(text), Denials)
    ensures GetConfirmation(text)
  {
    ConfirmsWithin(Normalize(text), i);
  }

  lemma ConfirmsWithin(t: string, i: int)
    requires OccursAt(t, "book", i)
    ensures AnySubstring(t, Confirmations)
  {
    OccursInside(t, "book", i, Confirmations[5], 2);
    AnySubstringSpec(t, Confirmations);
  }

  /** "know" contains the denial "no": any reply containing it is not a confirmation. */
  lemma KnowDenies(text: string, i: int)
    requires OccursAt(Normalize(text), "know", i)
    ensures !GetConfirmation(text)
  {
    var t := Normalize(text);
    OccursInside(t, "know", i, Denials[0], 1);
    AnySubstringSpec(t, Denials);
  }

  /** An entity dictionary: a key maps to a text or to Python's `None`. */
  type Entities = map<string, Option<string>>

  /** `_extract_appointment_entities`: date and time from `when`, the doctor from the text. */
  function ExtractAppointmentEntities(text: string, when: string -> Option<(string, string)>): (e: Entities)
    ensures e.Keys == {"date", "time", "doctor"}
    ensures e["doctor"] == Some(ExtractDoctor(text))
    ensures e["date"].Some? <==> when(text).Some?
    ensures e["time"].Some? <==> when(text).Some?
  {
    match when(text)
    case Some(dt) => map["date" := Some(dt.0), "time" := Some(dt.1), "doctor" := Some(ExtractDoctor(text))]
    case None => map["date" := None, "time" := None, "doctor" := Some(ExtractDoctor(text))]
  }

  /**
    `process`: the intent of the normalised text, and the entities only for a
    booking or a cancellation. `when` stands for `_extract_datetime`.
  */
  function Process(text: string, when: string -> Option<(string, string)>): (r: (Intent, Entities))
    ensures r.0 == DetectIntent(Normalize(text))
    ensures r.0 == ScheduleAppointment || r.0 == CancelAppointment ==>
      "doctor" in r.1 && r.1["doctor"] == Some(ExtractDoctor(Normalize(text)))
    ensures r.0 != ScheduleAppointment && r.0 != CancelAppointment ==> r.1 == map[]
  {
    var t := Normalize(text);
    var intent := DetectIntent(t);
    if intent == ScheduleAppointment || intent == CancelAppointment then
      (intent, ExtractAppointmentEntities(t, when))
    else
      (intent, map[])
  }

  /** `entities.get(key)` */
  function Field(e: Entities, key: string): Option<string> {
    if key in e then e[key] else None
  }

  /** The value is neither missing, `None` nor empty. */
  predicate Present(e: Entities, key: string) {
    Field(e, key).Some? && Field(e, key).value != ""
  }

  const NotUnderstood := "I couldn't understand the appointment time details."
  const FormatFailed := "There was an error formatting the appointment details."

  const DayNames: seq<string> := ["Monday", "Tuesday", "Wednesday", "Thursday", "Friday", "Saturday", "Sunday"]
  const MonthNames: seq<string> := ["January", "February", "March", "April", "May", "June",
    "July", "August", "September", "October", "November", "December"]

  /** `strftime('%A, %B %d, %Y')` */
  function LongDate(d: Date): string
    requires ValidDate(d)
  {
    NextDayWeekday(d);
    DayNames[Weekday(d)] + ", " + MonthNames[d.month - 1] + " " + Pad2(d.day) + ", " + Pad4(d.year)
  }

  /** `strftime('%I:%M %p')`: the hour on a twelve-hour dial and the half of the day. */
  function ClockTime(minute: int): (r: string)
    requires 0 <= minute < MinutesPerDay
    ensures |r| == 8 && r[2] == ':' && r[5] == ' '
  {
    var h := minute / 60;
    var dial := if h % 12 == 0 then 12 else h % 12;
    Pad2(dial) + ":" + Pad2(minute % 60) + " " + (if h < 12 then "AM" else "PM")
  }

  /**
    The twelve-hour text determines the time of day: its dial hour lies in
    1..12, and dial hour, minutes and half of the day give back the minute.
  */
  lemma ClockTimeReadsBack(minute: int)
    requires 0 <= minute < MinutesPerDay
    ensures var r := ClockTime(minute);
      var h := ParseShortField(r[..2]);
      var mm := ParseShortField(r[3..5]);
      h.Some? && mm.Some? && 1 <= h.value <= 12 && (r[6..] == "AM" || r[6..] == "PM")
      && minute == (h.value % 12 + (if r[6..] == "PM" then 12 else 0)) * 60 + mm.value
  {
    var h := minute / 60;
    var dial := if h % 12 == 0 then 12 else h % 12;
    var r := ClockTime(minute);
    assert r[..2] == Pad2(dial) && r[3..5] == Pad2(minute % 60);
    assert r[6..] == if h < 12 then "AM" else "PM";
    Pad2Parses(dial);
    Pad2Parses(minute % 60);
  }

  /** `entities.get('doctor', 'General Physician')`, as the f-string renders it. */
  function DoctorText(e: Entities): string {
    if "doctor" in e then (match e["doctor"] case Some(d) => d case None => "None")
    else "General Physician"
  }

  /** `format_appointment_summary` */
  function FormatAppointmentSummary(e: Entities): (r: string)
    ensures !Present(e, "date") || !Present(e, "time") ==> r == NotUnderstood
  {
    if !Present(e, "date") || !Present(e, "time") then NotUnderstood
    else
      match (ParseDate(e["date"].value), ParseTime(e["time"].value))
      case (Some(d), Some(m)) =>
        "Appointment with " + DoctorText(e) + " on " + LongDate(d) + " at " + ClockTime(m)
      case _ => FormatFailed
  }

  /** A date or time the parser refuses ends in the formatting error, never in a summary. */
  lemma SummaryRejectsUnparseable(e: Entities)
    requires Present(e, "date") && Present(e, "time")
    requires ParseDate(e["date"].value).None? || ParseTime(e["time"].value).None?
    ensures FormatAppointmentSummary(e) == FormatFailed
  {
  }

  /**
    Entities carrying a slot in the store's own format are summarised with that
    slot's day, date and twelve-hour time.
  */
  lemma SummaryOfSlot(s: Slot, doctor: string)
    requires WellFormed(s)
    ensures FormatAppointmentSummary(map["date" := Some(FormatDate(s.date)), "time" := Some(FormatTime(s.minute)),
        "doctor" := Some(doctor)])
      == "Appointment with " + doctor + " on " + LongDate(s.date) + " at " + ClockTime(s.minute)
  {
    DateRoundTrip(s.date);
    TimeRoundTrip(s.minute);
  }
}
