/**
  The `appointments` table as an in-memory sequence of rows, and the data-access
  class over it. The table has no uniqueness constraint: nothing here stops two
  `scheduled` rows for the same (date, time); the scheduler is what keeps that
  invariant. A failing connection (`sqlite3.Error`) is the `ioError` argument:
  the statement then changes nothing and the method returns its failure value.
*/
module AppointmentStore {
  import opened Text

  datatype Status = Scheduled | Cancelled

  /** One row; `created_at` and `updated_at` are not kept. */
  datatype Appointment = Appointment(id: int, date: string, time: string, doctor: string,
                                     notes: string, status: Status)

  /** The row is a `scheduled` appointment at exactly this (date, time) text. */
  predicate Occupies(a: Appointment, date: string, time: string) {
    a.status == Scheduled && a.date == date && a.time == time
  }

  /** `SELECT COUNT(*) ... WHERE date = ? AND time = ? AND status = 'scheduled'` */
  function CountScheduled(rs: seq<Appointment>, date: string, time: string): (r: nat)
    ensures r <= |rs|
  {
    if rs == [] then 0
    else CountScheduled(rs[..|rs| - 1], date, time) + (if Occupies(rs[|rs| - 1], date, time) then 1 else 0)
  }

  /** No scheduled row occupies the slot. */
  predicate SlotFree(rs: seq<Appointment>, date: string, time: string) {
    forall i :: 0 <= i < |rs| ==> !Occupies(rs[i], date, time)
  }

  /** The scheduler's invariant: at most one scheduled row per (date, time). */
  predicate UniqueScheduled(rs: seq<Appointment>) {
    forall i, j :: 0 <= i < j < |rs| && rs[i].status == Scheduled && rs[j].status == Scheduled
      ==> rs[i].date != rs[j].date || rs[i].time != rs[j].time
  }

  /** The count is zero exactly when the slot is free. */
  lemma {:induction false} CountZeroIffFree(rs: seq<Appointment>, date: string, time: string)
    ensures CountScheduled(rs, date, time) == 0 <==> SlotFree(rs, date, time)
  {
    if rs != [] {
      var init := rs[..|rs| - 1];
      CountZeroIffFree(init, date, time);
      assert forall i :: 0 <= i < |init| ==> init[i] == rs[i];
    }
  }

  /** Under the invariant a slot is counted at most once. */
  lemma {:induction false} UniqueCountsAtMostOne(rs: seq<Appointment>, date: string, time: string)
    requires UniqueScheduled(rs)
    ensures CountScheduled(rs, date, time) <= 1
  {
    if rs != [] {
      var init := rs[..|rs| - 1];
      assert UniqueScheduled(init);
      UniqueCountsAtMostOne(init, date, time);
      if Occupies(rs[|rs| - 1], date, time) {
        assert SlotFree(init, date, time);
        CountZeroIffFree(init, date, time);
      }
    }
  }

  /** Appending a row keeps the invariant exactly when the row does not clash with a scheduled one. */
  lemma AppendUnique(rs: seq<Appointment>, a: Appointment)
    ensures UniqueScheduled(rs + [a]) <==>
            UniqueScheduled(rs) && (a.status == Scheduled ==> SlotFree(rs, a.date, a.time))
  {
    var rs' := rs + [a];
    if UniqueScheduled(rs') {
      assert forall i :: 0 <= i < |rs| ==> rs'[i] == rs[i];
      if a.status == Scheduled {
        forall i | 0 <= i < |rs| ensures !Occupies(rs[i], a.date, a.time) {
          assert rs'[i] == rs[i] && rs'[|rs|] == a;
        }
      }
    }
  }

  /** The table after `UPDATE ... SET status = 'cancelled' WHERE date = ? AND time = ? AND status = 'scheduled'`. */
  function CancelMatching(rs: seq<Appointment>, date: string, time: string): (r: seq<Appointment>)
    ensures |r| == |rs|
    ensures forall i :: 0 <= i < |rs| ==> r[i] == rs[i].(status := r[i].status)
  {
    seq(|rs|, i requires 0 <= i < |rs| =>
      if Occupies(rs[i], date, time) then rs[i].(status := Cancelled) else rs[i])
  }

  /** The table after `UPDATE ... SET patient_notes = ? WHERE date = ? AND time = ? AND status = 'scheduled'`. */
  function RenoteMatching(rs: seq<Appointment>, date: string, time: string, notes: string): (r: seq<Appointment>)
    ensures |r| == |rs|
    ensures forall i :: 0 <= i < |rs| ==> r[i] == rs[i].(notes := r[i].notes)
  {
    seq(|rs|, i requires 0 <= i < |rs| =>
      if Occupies(rs[i], date, time) then rs[i].(notes := notes) else rs[i])
  }

  /** After a cancel the slot is free, so a second cancel of the same slot changes nothing. */
  lemma CancelFreesSlot(rs: seq<Appointment>, date: string, time: string)
    ensures SlotFree(CancelMatching(rs, date, time), date, time)
    ensures CountScheduled(CancelMatching(rs, date, time), date, time) == 0
    ensures CancelMatching(CancelMatching(rs, date, time), date, time) == CancelMatching(rs, date, time)
  {
    CountZeroIffFree(CancelMatching(rs, date, time), date, time);
  }

  /** Cancelling never creates a clash, and it only ever turns `scheduled` into `cancelled`. */
  lemma CancelKeepsUnique(rs: seq<Appointment>, date: string, time: string)
    requires UniqueScheduled(rs)
    ensures UniqueScheduled(CancelMatching(rs, date, time))
  {
  }

  /** Updating notes keeps every row's slot and status, so it keeps the invariant and the counts. */
  lemma RenoteKeepsSlots(rs: seq<Appointment>, date: string, time: string, notes: string, d: string, t: string)
    ensures UniqueScheduled(RenoteMatching(rs, date, time, notes)) <==> UniqueScheduled(rs)
    ensures SlotFree(RenoteMatching(rs, date, time, notes), d, t) <==> SlotFree(rs, d, t)
  {
    var rs' := RenoteMatching(rs, date, time, notes);
    assert forall i :: 0 <= i < |rs| ==>
      rs'[i].date == rs[i].date && rs'[i].time == rs[i].time && rs'[i].status == rs[i].status;
  }

  /** `WHERE date = ? AND status = 'scheduled'`, or `WHERE date >= today AND status = 'scheduled'` without a date. */
  predicate Listed(a: Appointment, date: string, today: string) {
    a.status == Scheduled && (if date != "" then a.date == date else LexLe(today, a.date))
  }

  /** The rows the `SELECT` keeps, in table order. */
  function Selection(rs: seq<Appointment>, date: string, today: string): (r: seq<Appointment>)
    ensures |r| <= |rs|
  {
    if rs == [] then []
    else
      var init := Selection(rs[..|rs| - 1], date, today);
      if Listed(rs[|rs| - 1], date, today) then init + [rs[|rs| - 1]] else init
  }

  lemma {:induction false} SelectionMembers(rs: seq<Appointment>, date: string, today: string)
    ensures forall a :: a in Selection(rs, date, today) <==> a in rs && Listed(a, date, today)
  {
    if rs != [] {
      SelectionMembers(rs[..|rs| - 1], date, today);
      assert rs == rs[..|rs| - 1] + [rs[|rs| - 1]];
    }
  }

  /** `ORDER BY date, time` on TEXT columns. */
  predicate KeyLe(a: Appointment, b: Appointment) {
    (LexLe(a.date, b.date) && a.date != b.date) || (a.date == b.date && LexLe(a.time, b.time))
  }

  lemma KeyLeTotal(a: Appointment, b: Appointment)
    ensures KeyLe(a, b) || KeyLe(b, a)
  {
    LexLeTotal(a.date, b.date);
    LexLeTotal(a.time, b.time);
  }

  lemma KeyLeTransitive(a: Appointment, b: Appointment, c: Appointment)
    requires KeyLe(a, b) && KeyLe(b, c)
    ensures KeyLe(a, c)
  {
    if a.date == b.date && b.date == c.date {
      LexLeTransitive(a.time, b.time, c.time);
    } else {
      LexLeReflexive(a.date);
      LexLeReflexive(b.date);
      LexLeTransitive(a.date, b.date, c.date);
      if a.date == c.date {
        LexLeAntisymmetric(a.date, b.date);
      }
    }
  }

  predicate SortedByKey(s: seq<Appointment>) {
    forall i, j :: 0 <= i < j < |s| ==> KeyLe(s[i], s[j])
  }

  /** Rows of a single date sorted by key are sorted by time. */
  lemma SortedOneDate(s: seq<Appointment>, date: string)
    requires SortedByKey(s)
    requires forall a :: a in s ==> a.date == date
    ensures forall i, j :: 0 <= i < j < |s| ==> s[i].date == date && LexLe(s[i].time, s[j].time)
  {
    forall i, j | 0 <= i < j < |s| ensures s[i].date == date && LexLe(s[i].time, s[j].time) {
      assert s[i] in s && s[j] in s;
      assert KeyLe(s[i], s[j]);
    }
  }

  /** Places `x` before the first row it does not follow. */
  function InsertByKey(x: Appointment, s: seq<Appointment>): seq<Appointment> {
    if s == [] then [x]
    else if KeyLe(x, s[0]) then [x] + s
    else [s[0]] + InsertByKey(x, s[1..])
  }

  /** Insertion adds `x` and keeps every row. */
  lemma {:induction false} InsertByKeyPermutes(x: Appointment, s: seq<Appointment>)
    ensures multiset(InsertByKey(x, s)) == multiset(s) + multiset{x}
  {
    if s != [] && !KeyLe(x, s[0]) {
      InsertByKeyPermutes(x, s[1..]);
      assert s == [s[0]] + s[1..];
    }
  }

  /** Every row after the first of a sorted sequence follows the first. */
  lemma SortedHead(s: seq<Appointment>, y: Appointment)
    requires SortedByKey(s) && s != [] && y in s[1..]
    ensures KeyLe(s[0], y)
  {
    var k :| 0 <= k < |s[1..]| && s[1..][k] == y;
    assert s[k + 1] == y;
  }

  /** A row that precedes every row of a sorted sequence can go in front of it. */
  lemma SortedCons(h: Appointment, t: seq<Appointment>)
    requires SortedByKey(t) && forall y :: y in t ==> KeyLe(h, y)
    ensures SortedByKey([h] + t)
  {
    var r := [h] + t;
    forall i, j | 0 <= i < j < |r| ensures KeyLe(r[i], r[j]) {
      assert r[j] == t[j - 1];
      if i > 0 {
        assert r[i] == t[i - 1];
      }
    }
  }

  lemma {:induction false} InsertByKeySorted(x: Appointment, s: seq<Appointment>)
    requires SortedByKey(s)
    ensures SortedByKey(InsertByKey(x, s))
    ensures multiset(InsertByKey(x, s)) == multiset(s) + multiset{x}
  {
    InsertByKeyPermutes(x, s);
    if s == [] {
    } else if KeyLe(x, s[0]) {
      forall y | y in s ensures KeyLe(x, y) {
        if y != s[0] {
          assert s == [s[0]] + s[1..];
          SortedHead(s, y);
          KeyLeTransitive(x, s[0], y);
        }
      }
      SortedCons(x, s);
    } else {
      var t := InsertByKey(x, s[1..]);
      InsertByKeySorted(x, s[1..]);
      KeyLeTotal(x, s[0]);
      forall y | y in t ensures KeyLe(s[0], y) {
        assert y in multiset(s[1..]) + multiset{x};
        if y != x {
          SortedHead(s, y);
        }
      }
      SortedCons(s[0], t);
    }
  }

  class Database {
    /** The rows of `appointments`, in `id` order. */
    var records: seq<Appointment>

    /** `id INTEGER PRIMARY KEY AUTOINCREMENT` on a table whose rows are never deleted. */
    ghost predicate Valid()
      reads this
    {
      forall i :: 0 <= i < |records| ==> records[i].id == i + 1
    }

    /** `_init_database`: `CREATE TABLE IF NOT EXISTS` on a new database file. */
    constructor ()
      ensures Valid() && records == []
    {
      records := [];
    }

    /** `add_appointment`: one `INSERT` of a `scheduled` row; no check that the slot is free. */
    method AddAppointment(date: string, time: string, doctor: string, notes: string, ioError: bool)
      returns (ok: bool)
      requires Valid()
      modifies this
      ensures Valid()
      ensures ok == !ioError
      ensures ok ==> records == old(records) + [Appointment(|old(records)| + 1, date, time, doctor, notes, Scheduled)]
      ensures ok ==> forall a :: a in old(records) ==> a.id < records[|records| - 1].id
      ensures !ok ==> records == old(records)
    {
      if ioError {
        return false;
      }
      records := records + [Appointment(|records| + 1, date, time, doctor, notes, Scheduled)];
      ok := true;
    }

    /** `check_availability`: the slot's `COUNT(*)` of scheduled rows is zero; `False` on a database error. */
    method CheckAvailability(date: string, time: string, ioError: bool) returns (free: bool)
      ensures free == (!ioError && CountScheduled(records, date, time) == 0)
    {
      if ioError {
        return false;
      }
      var count := 0;
      var i := 0;
      while i < |records|
        invariant 0 <= i <= |records|
        invariant count == CountScheduled(records[..i], date, time)
      {
        assert records[..i + 1][..i] == records[..i];
        if Occupies(records[i], date, time) {
          count := count + 1;
        }
        i := i + 1;
      }
      assert records[..i] == records;
      free := count == 0;
    }

    /**
      `cancel_appointment`: every scheduled row at the slot becomes `cancelled`
      (rows are never removed); `True` iff at least one row changed.
    */
    method CancelAppointment(date: string, time: string, ioError: bool) returns (changed: bool)
      requires Valid()
      modifies this
      ensures Valid()
      ensures changed == (!ioError && CountScheduled(old(records), date, time) > 0)
      ensures records == if ioError then old(records) else CancelMatching(old(records), date, time)
    {
      if ioError {
        return false;
      }
      var count := 0;
      var i := 0;
      while i < |records|
        invariant 0 <= i <= |records| == |old(records)|
        invariant forall k :: 0 <= k < i ==> records[k] == CancelMatching(old(records), date, time)[k]
        invariant forall k :: i <= k < |records| ==> records[k] == old(records)[k]
        invariant count == CountScheduled(old(records)[..i], date, time)
      {
        assert old(records)[..i + 1][..i] == old(records)[..i];
        if Occupies(records[i], date, time) {
          records := records[i := records[i].(status := Cancelled)];
          count := count + 1;
        }
        i := i + 1;
      }
      assert old(records)[..i] == old(records);
      changed := count > 0;
    }

    /**
      `update_appointment_notes`: every scheduled row at the slot gets the new
      notes; `True` iff at least one row changed. Cancelled rows keep theirs.
    */
    method UpdateAppointmentNotes(date: string, time: string, notes: string, ioError: bool)
      returns (changed: bool)
      requires Valid()
      modifies this
      ensures Valid()
      ensures changed == (!ioError && CountScheduled(old(records), date, time) > 0)
      ensures records == if ioError then old(records) else RenoteMatching(old(records), date, time, notes)
    {
      if ioError {
        return false;
      }
      var count := 0;
      var i := 0;
      while i < |records|
        invariant 0 <= i <= |records| == |old(records)|
        invariant forall k :: 0 <= k < i ==> records[k] == RenoteMatching(old(records), date, time, notes)[k]
        invariant forall k :: i <= k < |records| ==> records[k] == old(records)[k]
        invariant count == CountScheduled(old(records)[..i], date, time)
      {
        assert old(records)[..i + 1][..i] == old(records)[..i];
        if Occupies(records[i], date, time) {
          records := records[i := records[i].(notes := notes)];
          count := count + 1;
        }
        i := i + 1;
      }
      assert old(records)[..i] == old(records);
      changed := count > 0;
    }

    /**
      `get_appointments(date)`: the scheduled rows of that date, or with an empty
      date the scheduled rows dated `today` or later, ordered by (date, time);
      `[]` on a database error. Rows with equal keys come in no promised order.
    */
    method GetAppointments(date: string, today: string, ioError: bool) returns (rows: seq<Appointment>)
      ensures ioError ==> rows == []
      ensures !ioError ==> multiset(rows) == multiset(Selection(records, date, today))
      ensures !ioError ==> SortedByKey(rows)
      ensures forall a :: a in rows ==> a in records && Listed(a, date, today)
      ensures date != "" ==> forall i, j :: 0 <= i < j < |rows| ==> rows[i].date == date && LexLe(rows[i].time, rows[j].time)
    {
      rows := [];
      if ioError {
        return;
      }
      var i := 0;
      while i < |records|
        invariant 0 <= i <= |records|
        invariant SortedByKey(rows)
        invariant multiset(rows) == multiset(Selection(records[..i], date, today))
      {
        assert records[..i + 1] == records[..i] + [records[i]];
        assert records[..i + 1][..i] == records[..i];
        if Listed(records[i], date, today) {
          InsertByKeySorted(records[i], rows);
          rows := InsertByKey(records[i], rows);
        }
        i := i + 1;
      }
      assert records[..i] == records;
      SelectionMembers(records, date, today);
      forall a | a in rows ensures a in records && Listed(a, date, today) {
        assert a in multiset(rows);
      }
      if date != "" {
        SortedOneDate(rows, date);
      }
    }
  }
}
