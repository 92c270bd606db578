/** `GET /api/attendance/export` (app/api/attendance/export/route.ts): one day's attendance
    as a CSV document.

    The rows of the day are ordered by check-in time, turned into nine text fields each, and
    every field is wrapped in double quotes; fields are joined by `,` and rows by `\n`.
    The `HH:mm:ss` rendering of date-fns' `format` is the parameter `clock`, and
    `toFixed(1)` is the parameter `fixed1`. */
module AttendanceExport {
  import opened Common
  import opened Text
  import opened Ordering
  import Seqs
  import AttendanceRoute

  type Day = AttendanceRoute.Day

  /** An attendance row joined with the employee fields the export selects. */
  datatype ExportRecord = ExportRecord(
    employeeId: string, firstName: string, lastName: string,
    department: Option<string>, position: Option<string>,
    checkInTime: Option<int>, checkOutTime: Option<int>, date: Day,
    status: AttendanceRoute.Status, confidenceScore: Option<real>)

  datatype ExportResponse =
    | BadRequest(error: string)   // status 400
    | Csv(content: string)

  const Header: seq<string> := [
    "Employee ID", "Name", "Department", "Position", "Check In",
    "Check Out", "Status", "Hours Worked", "Confidence Score"]

  const HourMillis: int := 1000 * 60 * 60
  const MinuteMillis: int := 1000 * 60

  /** The status column as stored in the database. */
  function StatusName(s: AttendanceRoute.Status): string {
    match s
    case Present => "present"
    case Absent => "absent"
    case Late => "late"
    case HalfDay => "half_day"
  }

  /** JavaScript's `a % m`: the remainder takes the sign of `a`. */
  function JsRem(a: int, m: int): (r: int)
    requires m > 0
    ensures (a - r) % m == 0
    ensures -m < r < m
    ensures a >= 0 ==> 0 <= r <= a
    ensures a <= 0 ==> a <= r <= 0
  {
    TruncatedRemainder(a, m);
    if a >= 0 then a % m else -((-a) % m)
  }

  /** The remainder of the magnitude, given the dividend's sign, is congruent to the
      dividend and no larger than the magnitude. */
  lemma TruncatedRemainder(a: int, m: int)
    requires m > 0
    ensures a >= 0 ==> (a - a % m) % m == 0 && a % m <= a
    ensures a < 0 ==> (a + (-a) % m) % m == 0 && (-a) % m <= -a
  {
    if a >= 0 {
      RemainderOfMagnitude(a, m);
    } else {
      RemainderOfMagnitude(-a, m);
      assert a + (-a) % m == -((-a) - (-a) % m);
    }
  }

  /** For a non-negative `b`, `b - b % m` is a whole multiple of `m`, with or without its
      sign flipped, and `b % m` is at most `b`. */
  lemma RemainderOfMagnitude(b: int, m: int)
    requires b >= 0 && m > 0
    ensures (b - b % m) % m == 0 && (-(b - b % m)) % m == 0
    ensures b % m <= b
  {
    var q := b / m;
    assert b - b % m == q * m;
    MultipleHasNoRemainder(q, m);
    NonNegativeProduct(q, m);
  }

  lemma NonNegativeProduct(q: int, m: int)
    requires q >= 0 && m >= 0
    ensures q * m >= 0
  {
  }

  /** A whole multiple of `m`, or its negation, leaves no remainder. */
  lemma MultipleHasNoRemainder(q: int, m: int)
    requires m > 0
    ensures (q * m) % m == 0 && (-(q * m)) % m == 0
  {
    NoRemainder(q, m);
    NoRemainder(-q, m);
    assert (-q) * m == -(q * m);
  }

  lemma NoRemainder(q: int, m: int)
    requires m > 0
    ensures (q * m) % m == 0
  {
    var x := q * m;
    var k := q - x / m;
    assert x % m == k * m;
  }

  /** `Math.floor(diff / 3600000)`: Dafny's `/` by a positive divisor is the floor. */
  function Hours(diff: int): int {
    diff / HourMillis
  }

  /** `Math.floor((diff % 3600000) / 60000)`. */
  function Minutes(diff: int): int {
    JsRem(diff, HourMillis) / MinuteMillis
  }

  /** The "Hours Worked" cell: empty unless both times are present, otherwise
      `${hours}:${minutes.toString().padStart(2, '0')}`. */
  function HoursWorked(checkIn: Option<int>, checkOut: Option<int>): (r: string)
    ensures r == "" <==> checkIn.None? || checkOut.None?
  {
    if checkIn.Some? && checkOut.Some? then
      var diff := checkOut.value - checkIn.value;
      IntToString(Hours(diff)) + ":" + PadStart(IntToString(Minutes(diff)), 2, '0')
    else ""
  }

  /** For a check-out not before the check-in, the cell is whole hours, a colon and exactly
      two minute digits, and the hours and minutes are those of the elapsed time rounded
      down to the minute. */
  lemma {:induction false} HoursWorkedShape(checkIn: int, checkOut: int)
    requires checkIn <= checkOut
    ensures var diff := checkOut - checkIn;
            var h := Hours(diff);
            var m := Minutes(diff);
            && h >= 0 && 0 <= m < 60
            && h * HourMillis + m * MinuteMillis <= diff < h * HourMillis + (m + 1) * MinuteMillis
            && HoursWorked(Some(checkIn), Some(checkOut)) == NatToString(h) + ":" + [DigitChar(m / 10), DigitChar(m % 10)]
  {
    var diff := checkOut - checkIn;
    ElapsedSplit(diff);
    MinuteDigits(Minutes(diff));
  }

  /** A non-negative duration is its whole hours, its whole minutes under sixty and less
      than a minute more. */
  lemma ElapsedSplit(diff: int)
    requires diff >= 0
    ensures var h := Hours(diff);
            var m := Minutes(diff);
            && h >= 0 && 0 <= m < 60
            && h * HourMillis + m * MinuteMillis <= diff < h * HourMillis + (m + 1) * MinuteMillis
  {
    var h := Hours(diff);
    var rem := JsRem(diff, HourMillis);
    assert rem == diff % HourMillis;
    assert diff == h * HourMillis + rem;
    var m := Minutes(diff);
    assert rem == m * MinuteMillis + rem % MinuteMillis;
  }

  /** A minute count under sixty is padded to exactly its two decimal digits. */
  lemma MinuteDigits(m: int)
    requires 0 <= m < 60
    ensures PadStart(IntToString(m), 2, '0') == [DigitChar(m / 10), DigitChar(m % 10)]
  {
    if m < 10 {
      assert IntToString(m) == [DigitChar(m)];
      assert PadStart(IntToString(m), 2, '0') == ['0'] + [DigitChar(m)];
    } else {
      assert NatToString(m) == NatToString(m / 10) + [DigitChar(m % 10)];
      assert NatToString(m / 10) == [DigitChar(m / 10)];
    }
  }

  /** A check-out stamped one millisecond before the check-in renders as "-1:-1": the
      floor of the hours and the truncated remainder of the minutes are both negative. */
  lemma NegativeDurationRendering()
    ensures HoursWorked(Some(1), Some(0)) == "-1:-1"
  {
    assert JsRem(-1, HourMillis) == -1;
    assert Minutes(-1) == -1;
    assert Hours(-1) == -1;
    assert NatToString(1) == "1";
  }

  /** The nine cells of a record's row, in header order. */
  function Fields(r: ExportRecord, clock: int -> string, fixed1: real -> string): (f: seq<string>)
    ensures |f| == |Header|
    ensures f[2] == (if r.department.Some? then r.department.value else "")
    ensures f[3] == (if r.position.Some? then r.position.value else "")
    ensures f[7] == "" <==> r.checkInTime.None? || r.checkOutTime.None?
    ensures f[8] == "" <==> r.confidenceScore.None? || r.confidenceScore == Some(0.0)
  {
    [ r.employeeId,
      r.firstName + " " + r.lastName,
      if r.department.Some? then r.department.value else "",
      if r.position.Some? then r.position.value else "",
      if r.checkInTime.Some? then clock(r.checkInTime.value) else "",
      if r.checkOutTime.Some? then clock(r.checkOutTime.value) else "",
      StatusName(r.status),
      HoursWorked(r.checkInTime, r.checkOutTime),
      if r.confidenceScore.Some? && r.confidenceScore.value != 0.0
      then fixed1(r.confidenceScore.value * 100.0) + "%" else "" ]
  }

  /** The sort key of `orderBy: { checkInTime: 'asc' }`. */
  function CheckInOrder(r: ExportRecord): int {
    match r.checkInTime
    case Some(t) => t
    case None => 0
  }

  /** The query: the rows of `day`, in check-in order. */
  function Selected(day: Day, table: seq<ExportRecord>): (s: seq<ExportRecord>)
    ensures forall x :: x in s <==> x in table && x.date == day
    ensures multiset(s) == multiset(Seqs.Filter(table, (x: ExportRecord) => x.date == day))
    ensures |s| == |Seqs.Filter(table, (x: ExportRecord) => x.date == day)|
    ensures SortedBy(s, CheckInOrder)
  {
    var f := Seqs.Filter(table, (x: ExportRecord) => x.date == day);
    SortByMembers(f, CheckInOrder);
    SortBy(f, CheckInOrder)
  }

  /** The header followed by one row per record, in order. */
  function Rows(records: seq<ExportRecord>, clock: int -> string, fixed1: real -> string): (rows: seq<seq<string>>)
    ensures |rows| == |records| + 1 && rows[0] == Header
    ensures forall i :: 0 <= i < |rows| ==> |rows[i]| == |Header|
    ensures forall i :: 1 <= i < |rows| ==> rows[i] == Fields(records[i - 1], clock, fixed1)
  {
    [Header] + seq(|records|, i requires 0 <= i < |records| => Fields(records[i], clock, fixed1))
  }

  /** `"${field}"`: the quotes are added, nothing inside is escaped. */
  function Quote(field: string): string {
    "\"" + field + "\""
  }

  function QuoteAll(row: seq<string>): (q: seq<string>)
    ensures |q| == |row| && forall i :: 0 <= i < |row| ==> q[i] == Quote(row[i])
  {
    seq(|row|, i requires 0 <= i < |row| => Quote(row[i]))
  }

  function RenderRow(row: seq<string>): string {
    Join(QuoteAll(row), ",")
  }

  function RenderAll(rows: seq<seq<string>>): (r: seq<string>)
    ensures |r| == |rows| && forall i :: 0 <= i < |rows| ==> r[i] == RenderRow(rows[i])
  {
    seq(|rows|, i requires 0 <= i < |rows| => RenderRow(rows[i]))
  }

  /** The document: quoted rows joined by `\n`. */
  function RenderDoc(rows: seq<seq<string>>): string {
    Join(RenderAll(rows), "\n")
  }

  /** The handler: a falsy `date` is a 400, otherwise the day's CSV document. */
  function Export(date: Option<Day>, table: seq<ExportRecord>, clock: int -> string, fixed1: real -> string): (r: ExportResponse)
    ensures date.None? <==> r == BadRequest("Date parameter is required")
    ensures date.Some? ==> r == Csv(RenderDoc(Rows(Selected(date.value, table), clock, fixed1)))
  {
    if date.None? then BadRequest("Date parameter is required")
    else Csv(RenderDoc(Rows(Selected(date.value, table), clock, fixed1)))
  }

  // A reader for the documents the export writes, following section 2 of RFC 4180 for
  // fields enclosed in double quotes (a doubled quote inside stands for one quote), with
  // `\n` as the record separator the export uses.

  /** The rest of a quoted field after its opening quote: the field's text and what follows
      the closing quote, or None when the field is never closed. */
  function ReadQuoted(s: string): (r: Option<(string, string)>)
    ensures r.Some? ==> |r.value.1| < |s|
    decreases |s|
  {
    if s == [] then None
    else if s[0] == '"' then
      if |s| >= 2 && s[1] == '"' then
        match ReadQuoted(s[2..])
        case Some((f, rest)) => Some(("\"" + f, rest))
        case None => None
      else Some(("", s[1..]))
    else
      match ReadQuoted(s[1..])
      case Some((f, rest)) => Some(([s[0]] + f, rest))
      case None => None
  }

  /** The rows of a document made of quoted fields, or None when it is malformed. */
  function ParseDoc(s: string): (r: Option<seq<seq<string>>>)
    ensures r.Some? ==> |r.value| >= 1 && forall i :: 0 <= i < |r.value| ==> |r.value[i]| >= 1
    decreases |s|
  {
    if s == [] || s[0] != '"' then None
    else
      match ReadQuoted(s[1..])
      case None => None
      case Some((field, rest)) =>
        if rest == [] then Some([[field]])
        else if rest[0] == ',' then
          match ParseDoc(rest[1..])
          case Some(rows) => Some([[field] + rows[0]] + rows[1..])
          case None => None
        else if rest[0] == '\n' then
          match ParseDoc(rest[1..])
          case Some(rows) => Some([[field]] + rows)
          case None => None
        else None
  }

  /** A field without quotes is read back up to its closing quote. */
  lemma {:induction false} ReadQuotedField(f: string, tail: string)
    requires '"' !in f
    requires tail == [] || tail[0] != '"'
    ensures ReadQuoted(f + "\"" + tail) == Some((f, tail))
  {
    if f != [] {
      ReadQuotedField(f[1..], tail);
      assert (f + "\"" + tail)[1..] == f[1..] + "\"" + tail;
      assert [f[0]] + f[1..] == f;
    } else {
      assert ("\"" + tail)[1..] == tail;
    }
  }

  /** One rendered row followed by the end of the document or by `\n` and more. */
  lemma {:induction false} ParseRowThen(row: seq<string>, tail: string)
    requires |row| >= 1 && forall i :: 0 <= i < |row| ==> '"' !in row[i]
    requires tail == [] || tail[0] == '\n'
    ensures ParseDoc(RenderRow(row) + tail) ==
              if tail == [] then Some([row])
              else match ParseDoc(tail[1..])
                   case Some(rows) => Some([row] + rows)
                   case None => None
    decreases |row|
  {
    var f := row[0];
    if |row| == 1 {
      assert QuoteAll(row) == [Quote(f)];
      assert RenderRow(row) == Quote(f);
      ParseLastField(f, tail);
      assert row == [f];
    } else {
      var more := RenderRow(row[1..]) + tail;
      assert QuoteAll(row)[1..] == QuoteAll(row[1..]);
      assert RenderRow(row) == Quote(f) + "," + RenderRow(row[1..]);
      assert RenderRow(row) + tail == Quote(f) + ("," + more);
      ParseFieldThenComma(f, more);
      ParseRowThen(row[1..], tail);
      assert [row[0]] + row[1..] == row;
      if tail == [] {
        assert ParseDoc(more) == Some([row[1..]]);
        assert [[f] + row[1..]] + [row[1..]][1..] == [row];
      } else if ParseDoc(tail[1..]).Some? {
        var rows := ParseDoc(tail[1..]).value;
        assert ParseDoc(more) == Some([row[1..]] + rows);
        assert ([row[1..]] + rows)[1..] == rows;
      }
    }
  }

  /** A quoted field followed by the end of the text or of the line ends its row. */
  lemma ParseLastField(f: string, tail: string)
    requires '"' !in f
    requires tail == [] || tail[0] == '\n'
    ensures ParseDoc(Quote(f) + tail) ==
              if tail == [] then Some([[f]])
              else match ParseDoc(tail[1..])
                   case Some(rows) => Some([[f]] + rows)
                   case None => None
  {
    ReadQuotedField(f, tail);
    assert (Quote(f) + tail)[0] == '"';
    assert (Quote(f) + tail)[1..] == f + "\"" + tail;
  }

  /** A quoted field followed by a comma starts the first row of whatever follows. */
  lemma ParseFieldThenComma(f: string, more: string)
    requires '"' !in f
    ensures ParseDoc(Quote(f) + ("," + more)) == match ParseDoc(more)
              case Some(rows) => Some([[f] + rows[0]] + rows[1..])
              case None => None
  {
    var s := Quote(f) + ("," + more);
    assert s[0] == '"';
    assert s[1..] == f + "\"" + ("," + more);
    ReadQuotedField(f, "," + more);
    assert ("," + more)[1..] == more;
  }

  /** Reading the document back gives the rows, when every row has a field and no field
      contains a double quote. */
  lemma {:induction false} ParseRenderRoundTrip(rows: seq<seq<string>>)
    requires |rows| >= 1
    requires forall i :: 0 <= i < |rows| ==> |rows[i]| >= 1
    requires forall i, j :: 0 <= i < |rows| && 0 <= j < |rows[i]| ==> '"' !in rows[i][j]
    ensures ParseDoc(RenderDoc(rows)) == Some(rows)
    decreases |rows|
  {
    if |rows| == 1 {
      assert RenderAll(rows) == [RenderRow(rows[0])];
      ParseRowThen(rows[0], "");
      assert RenderRow(rows[0]) + "" == RenderRow(rows[0]);
      assert rows == [rows[0]];
    } else {
      assert RenderAll(rows)[1..] == RenderAll(rows[1..]);
      var tail := "\n" + RenderDoc(rows[1..]);
      assert RenderDoc(rows) == RenderRow(rows[0]) + tail;
      ParseRenderRoundTrip(rows[1..]);
      ParseRowThen(rows[0], tail);
      assert tail[1..] == RenderDoc(rows[1..]);
      assert [rows[0]] + rows[1..] == rows;
    }
  }

  /** So a day's export reads back as its header and rows whenever no cell holds a quote. */
  lemma ExportReadsBack(day: Day, table: seq<ExportRecord>, clock: int -> string, fixed1: real -> string)
    requires var rows := Rows(Selected(day, table), clock, fixed1);
             forall i, j :: 0 <= i < |rows| && 0 <= j < |rows[i]| ==> '"' !in rows[i][j]
    ensures Export(Some(day), table, clock, fixed1) == Csv(RenderDoc(Rows(Selected(day, table), clock, fixed1)))
    ensures ParseDoc(RenderDoc(Rows(Selected(day, table), clock, fixed1))) == Some(Rows(Selected(day, table), clock, fixed1))
  {
    ParseRenderRoundTrip(Rows(Selected(day, table), clock, fixed1));
  }

  /** A cell holding a doubled quote is read back as a different value: the quotes are not
      escaped, so the reader takes the pair for one escaped quote. */
  lemma QuoteInFieldIsMisread()
    ensures ParseDoc(RenderDoc([["a\"\""]])) == Some([["a\""]])
  {
    assert RenderDoc([["a\"\""]]) == "\"a\"\"\"";
    var s := "\"a\"\"\"";
    assert s[1..] == "a\"\"\"";
    assert ReadQuoted("\"") == Some(("", ""));
    assert "\"\"\""[2..] == "\"";
    assert "\"" + "" == "\"";
    assert ReadQuoted("\"\"\"") == Some(("\"", ""));
    assert "a\"\"\""[1..] == "\"\"\"";
    assert ['a'] + "\"" == "a\"";
    assert ReadQuoted("a\"\"\"") == Some(("a\"", ""));
  }
}
