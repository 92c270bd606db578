/** `GET` and `POST /api/attendance` (app/api/attendance/route.ts): the daily check-in and
    check-out of employees against the attendance table.

    Records are keyed on (employee, day), the day being local midnight in milliseconds;
    the handler's `new Date()` readings are the parameters `today` and `now`. The `POST`
    transition is the pure function `Step` on a `Table` value, and the class
    `AttendanceTable` is the table itself, whose `Post` method is proved against `Step`.
    Authentication, the joined `employee` object and the 500 path are not modelled. */
module AttendanceRoute {
  import opened Common
  import opened Ordering

  /** A day as a timestamp in milliseconds. `POST` stores local midnight; `GET` and the
      export filter on the instant `new Date(date)` gives, which is UTC midnight, so the
      two meet only when the server runs in UTC. */
  type Day = int

  /** The `status` enum of the attendance table. */
  datatype Status = Present | Absent | Late | HalfDay

  /** A row of the attendance table (lib/database.ts); times are milliseconds. */
  datatype AttendanceRecord = AttendanceRecord(
    id: int, employeeId: int, checkInTime: Option<int>, checkOutTime: Option<int>,
    date: Day, status: Status, confidenceScore: Option<real>, notes: Option<string>)

  /** The (employeeId, date) pair the handler looks records up by. */
  type Key = (int, Day)

  function KeyOf(r: AttendanceRecord): Key {
    (r.employeeId, r.date)
  }

  /** An optional field of a JSON body: absent (`undefined`), `null`, or a value. */
  datatype Field<T> = Missing | Null | Given(value: T)

  /** The column a `create` stores: an absent or null field leaves the column null. */
  function OnCreate<T>(f: Field<T>): Option<T> {
    if f.Given? then Some(f.value) else None
  }

  /** The column an `update` leaves: `undefined` keeps it, `null` clears it. */
  function OnUpdate<T>(f: Field<T>, current: Option<T>): Option<T> {
    match f
    case Missing => current
    case Null => None
    case Given(v) => Some(v)
  }

  /** The body of a `POST`. `employeeId` is None when the JSON value is falsy (absent,
      null, 0 or the empty string), otherwise the number `parseInt` reads from it;
      `kind` is the `type` field, None when absent or null. */
  datatype PostRequest = PostRequest(
    employeeId: Option<int>, kind: Option<string>, confidenceScore: Field<real>, notes: Field<string>)

  datatype Response =
    | Error(status: int, error: string)
    | Ok(status: int, record: Option<AttendanceRecord>)

  /** The attendance table and the id the next created row receives. */
  datatype Table = Table(records: map<Key, AttendanceRecord>, nextId: int)

  /** What a `POST` does to the table and what it answers. */
  datatype StepResult = StepResult(table: Table, response: Response)

  /** Every row sits under its own (employeeId, date), has a check-in time, and has an
      id below `nextId` that no other row shares. */
  ghost predicate ValidTable(t: Table) {
    && (forall k :: k in t.records ==>
          KeyOf(t.records[k]) == k && t.records[k].checkInTime.Some? && t.records[k].id < t.nextId)
    && (forall k, k' :: k in t.records && k' in t.records && k != k' ==> t.records[k].id != t.records[k'].id)
  }

  /** `!employeeId || !type`. */
  predicate MissingFields(req: PostRequest) {
    req.employeeId.None? || req.kind.None? || req.kind == Some("")
  }

  /** The row a successful check-in creates. */
  function CheckedIn(t: Table, req: PostRequest, today: Day, now: int): AttendanceRecord
    requires req.employeeId.Some?
  {
    AttendanceRecord(t.nextId, req.employeeId.value, Some(now), None, today, Present,
                     OnCreate(req.confidenceScore), OnCreate(req.notes))
  }

  /** The row a successful check-out leaves. */
  function CheckedOut(r: AttendanceRecord, req: PostRequest, now: int): AttendanceRecord {
    r.(checkOutTime := Some(now),
       confidenceScore := OnUpdate(req.confidenceScore, r.confidenceScore),
       notes := OnUpdate(req.notes, r.notes))
  }

  /** The `POST` handler as a transition of the table. */
  function Step(t: Table, req: PostRequest, today: Day, now: int): (r: StepResult)
    // Rejections: each is a 400 with its own message and writes nothing.
    ensures r.response.Error? ==> r.response.status == 400 && r.table == t
    ensures r.response.Ok? ==> r.response.status == 201
    ensures r.response == Error(400, "Employee ID and type are required") <==> MissingFields(req)
    ensures !MissingFields(req) && req.kind.value == "check-in" ==>
              (r.response == Error(400, "Employee already checked in today")
               <==> (req.employeeId.value, today) in t.records)
    ensures !MissingFields(req) && req.kind.value == "check-out" ==>
              (r.response == Error(400, "No check-in record found for today")
               <==> (req.employeeId.value, today) !in t.records)
    ensures !MissingFields(req) && req.kind.value == "check-out" && (req.employeeId.value, today) in t.records ==>
              (r.response == Error(400, "Employee already checked out today")
               <==> t.records[(req.employeeId.value, today)].checkOutTime.Some?)
    // These are the only rejections: everything else succeeds.
    ensures !MissingFields(req) ==>
              var key := (req.employeeId.value, today);
              (r.response.Error? <==>
                 || (req.kind.value == "check-in" && key in t.records)
                 || (req.kind.value == "check-out" && (key !in t.records || t.records[key].checkOutTime.Some?)))
    // Successes: only the row under (employeeId, today) is created or updated.
    ensures r.response.Ok? && !MissingFields(req) ==>
              var key := (req.employeeId.value, today);
              && t.records.Keys <= r.table.records.Keys <= t.records.Keys + {key}
              && (forall k :: k in t.records && k != key ==> r.table.records[k] == t.records[k])
              && r.response.record == (if key in r.table.records then Some(r.table.records[key]) else None)
    ensures r.response.Ok? && req.kind.value == "check-in" ==>
              var key := (req.employeeId.value, today);
              && key !in t.records
              && r.table == Table(t.records[key := CheckedIn(t, req, today, now)], t.nextId + 1)
    ensures r.response.Ok? && req.kind.value == "check-out" ==>
              var key := (req.employeeId.value, today);
              && key in t.records && t.records[key].checkOutTime.None?
              && r.table == Table(t.records[key := CheckedOut(t.records[key], req, now)], t.nextId)
    ensures !MissingFields(req) && req.kind.value != "check-in" && req.kind.value != "check-out" ==>
              var key := (req.employeeId.value, today);
              r == StepResult(t, Ok(201, if key in t.records then Some(t.records[key]) else None))
  {
    if MissingFields(req) then StepResult(t, Error(400, "Employee ID and type are required"))
    else
      var key := (req.employeeId.value, today);
      var attendanceRecord := if key in t.records then Some(t.records[key]) else None;
      if req.kind.value == "check-in" then
        if attendanceRecord.Some? then StepResult(t, Error(400, "Employee already checked in today"))
        else
          var created := CheckedIn(t, req, today, now);
          StepResult(Table(t.records[key := created], t.nextId + 1), Ok(201, Some(created)))
      else if req.kind.value == "check-out" then
        if attendanceRecord.None? then StepResult(t, Error(400, "No check-in record found for today"))
        else if attendanceRecord.value.checkOutTime.Some? then StepResult(t, Error(400, "Employee already checked out today"))
        else
          var updated := CheckedOut(attendanceRecord.value, req, now);
          StepResult(Table(t.records[key := updated], t.nextId), Ok(201, Some(updated)))
      else StepResult(t, Ok(201, attendanceRecord))
  }

  /** Every transition keeps the table well formed: in particular at most one row per
      employee and day exists at any time, and row ids stay unique. */
  lemma StepPreservesValid(t: Table, req: PostRequest, today: Day, now: int)
    requires ValidTable(t)
    ensures ValidTable(Step(t, req, today, now).table)
  {
    var r := Step(t, req, today, now);
    if r.response.Ok? && !MissingFields(req) && req.kind.value == "check-in" {
      var key := (req.employeeId.value, today);
      forall k, k' | k in r.table.records && k' in r.table.records && k != k'
        ensures r.table.records[k].id != r.table.records[k'].id
      {
        if k == key {
          assert r.table.records[k'].id < t.nextId;
        } else if k' == key {
          assert r.table.records[k].id < t.nextId;
        }
      }
    }
  }

  /** In a valid table every record is stored under its own key. */
  lemma StoredUnderOwnKey(t: Table)
    requires ValidTable(t)
    ensures forall k :: k in t.records ==> KeyOf(t.records[k]) == k
    ensures forall r :: r in t.records.Values ==> KeyOf(r) in t.records && t.records[KeyOf(r)] == r
  {
    forall r | r in t.records.Values ensures KeyOf(r) in t.records && t.records[KeyOf(r)] == r {
      var k :| k in t.records && t.records[k] == r;
    }
  }

  /** A successful check-in is the only one of the day: any later check-in by the same
      employee on the same day is rejected and writes nothing. */
  lemma CheckInOncePerDay(t: Table, req: PostRequest, later: PostRequest, today: Day, now: int, now': int)
    requires !MissingFields(req) && req.kind.value == "check-in"
    requires Step(t, req, today, now).response.Ok?
    requires later.employeeId == req.employeeId && later.kind == Some("check-in")
    ensures var t' := Step(t, req, today, now).table;
            Step(t', later, today, now') == StepResult(t', Error(400, "Employee already checked in today"))
  {
    var t' := Step(t, req, today, now).table;
    assert (req.employeeId.value, today) in t'.records;
  }

  /** After a successful check-out the day's row is final: every later request for the
      same employee and day leaves the table as it is. */
  lemma CheckOutIsFinal(t: Table, req: PostRequest, later: PostRequest, today: Day, now: int, now': int)
    requires !MissingFields(req) && req.kind.value == "check-out"
    requires Step(t, req, today, now).response.Ok?
    requires later.employeeId == req.employeeId
    ensures var t' := Step(t, req, today, now).table;
            Step(t', later, today, now').table == t'
  {
    var t' := Step(t, req, today, now).table;
    var key := (req.employeeId.value, today);
    assert t'.records[key].checkOutTime == Some(now);
  }

  /** Check-in followed by check-out on a day without a row leaves one row holding both
      times, still `present`, with the id the check-in assigned. */
  lemma CheckInThenCheckOut(t: Table, id: int, today: Day, inAt: int, outAt: int,
                            confidenceScore: Field<real>, notes: Field<string>)
    requires (id, today) !in t.records
    ensures var checkIn := PostRequest(Some(id), Some("check-in"), confidenceScore, notes);
            var checkOut := PostRequest(Some(id), Some("check-out"), Missing, Missing);
            var t1 := Step(t, checkIn, today, inAt).table;
            var r := Step(t1, checkOut, today, outAt);
            && r.response.Ok?
            && r.table.records[(id, today)]
               == AttendanceRecord(t.nextId, id, Some(inAt), Some(outAt), today, Present,
                                   OnCreate(confidenceScore), OnCreate(notes))
  {
    var checkIn := PostRequest(Some(id), Some("check-in"), confidenceScore, notes);
    var t1 := Step(t, checkIn, today, inAt).table;
    assert t1.records[(id, today)].checkOutTime.None?;
  }

  /** Rows whose times are ordered and not after `now`. */
  ghost predicate Chronological(t: Table, now: int) {
    forall k :: k in t.records && t.records[k].checkInTime.Some? ==>
      && t.records[k].checkInTime.value <= now
      && (t.records[k].checkOutTime.Some? ==>
            t.records[k].checkInTime.value <= t.records[k].checkOutTime.value <= now)
  }

  /** The handler never compares the check-out time with the check-in time; the times of a
      row are ordered only because the clock does not run backwards between requests. */
  lemma StepKeepsChronology(t: Table, req: PostRequest, today: Day, now: int, now': int)
    requires Chronological(t, now) && now <= now'
    ensures Chronological(Step(t, req, today, now').table, now')
  {
  }

  /** Without that, a check-out stamped before the check-in is accepted. */
  lemma CheckOutBeforeCheckIn()
    ensures var t := Table(map[(7, 0) := AttendanceRecord(1, 7, Some(500), None, 0, Present, None, None)], 2);
            var r := Step(t, PostRequest(Some(7), Some("check-out"), Missing, Missing), 0, 100);
            r.response.Ok? && r.table.records[(7, 0)].checkOutTime == Some(100)
  {
  }

  /** `GET`'s `where` clause: `date` and `employeeId` filter only when given. */
  predicate Matches(r: AttendanceRecord, date: Option<Day>, employeeId: Option<int>) {
    (date.None? || r.date == date.value) && (employeeId.None? || r.employeeId == employeeId.value)
  }

  /** The sort key of `orderBy: { checkInTime: 'desc' }`. */
  function NewestFirst(r: AttendanceRecord): int {
    match r.checkInTime
    case Some(t) => -t
    case None => 0
  }

  class AttendanceTable {
    var records: map<Key, AttendanceRecord>
    var nextId: int

    ghost predicate Valid()
      reads this
    {
      ValidTable(Table(records, nextId))
    }

    /** An empty table whose first row will get id 1. */
    constructor()
      ensures records == map[] && nextId == 1 && Valid()
    {
      records := map[];
      nextId := 1;
    }

    /** `POST`: validate, look up today's row, then check in or check out. */
    method Post(req: PostRequest, today: Day, now: int) returns (response: Response)
      requires Valid()
      modifies this
      ensures Valid()
      ensures var r := Step(Table(old(records), old(nextId)), req, today, now);
              Table(records, nextId) == r.table && response == r.response
    {
      StepPreservesValid(Table(records, nextId), req, today, now);
      if req.employeeId.None? || req.kind.None? || req.kind.value == "" {
        return Error(400, "Employee ID and type are required");
      }
      var employeeId := req.employeeId.value;
      var key := (employeeId, today);
      var attendanceRecord := if key in records then Some(records[key]) else None;
      if req.kind.value == "check-in" {
        if attendanceRecord.Some? {
          return Error(400, "Employee already checked in today");
        }
        var created := AttendanceRecord(nextId, employeeId, Some(now), None, today, Present,
                                        OnCreate(req.confidenceScore), OnCreate(req.notes));
        records := records[key := created];
        nextId := nextId + 1;
        attendanceRecord := Some(created);
      } else if req.kind.value == "check-out" {
        if attendanceRecord.None? {
          return Error(400, "No check-in record found for today");
        }
        if attendanceRecord.value.checkOutTime.Some? {
          return Error(400, "Employee already checked out today");
        }
        var updated := attendanceRecord.value.(checkOutTime := Some(now),
                                               confidenceScore := OnUpdate(req.confidenceScore, attendanceRecord.value.confidenceScore),
                                               notes := OnUpdate(req.notes, attendanceRecord.value.notes));
        records := records[key := updated];
        attendanceRecord := Some(updated);
      }
      response := Ok(201, attendanceRecord);
    }

    /** `GET`: the rows matching the filters, newest check-in first, each once. */
    method Get(date: Option<Day>, employeeId: Option<int>) returns (attendanceRecords: seq<AttendanceRecord>)
      requires Valid()
      ensures forall r :: r in attendanceRecords <==> r in records.Values && Matches(r, date, employeeId)
      ensures SortedBy(attendanceRecords, NewestFirst)
      ensures forall r :: multiset(attendanceRecords)[r] <= 1
    {
      StoredUnderOwnKey(Table(records, nextId));
      var found: seq<AttendanceRecord> := [];
      var remaining := records.Keys;
      while remaining != {}
        invariant remaining <= records.Keys
        invariant forall r :: r in found ==> KeyOf(r) in records && records[KeyOf(r)] == r && KeyOf(r) !in remaining && Matches(r, date, employeeId)
        invariant forall k :: k in records && k !in remaining && Matches(records[k], date, employeeId) ==> records[k] in found
        invariant forall r :: multiset(found)[r] <= 1
        decreases |remaining|
      {
        var k :| k in remaining;
        var r := records[k];
        assert KeyOf(r) == k;
        if Matches(r, date, employeeId) {
          assert r !in found;
          found := found + [r];
        }
        remaining := remaining - {k};
      }
      attendanceRecords := SortBy(found, NewestFirst);
      SortByMembers(found, NewestFirst);
      forall r | r in found ensures r in records.Values {
        assert records[KeyOf(r)] == r;
      }
    }
  }
}
