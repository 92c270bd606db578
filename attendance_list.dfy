/** The `AttendanceList` component (facial-recognition-attendance/src/components/attendance-list.tsx):
    the "today" view of the log, its "Present" count, the plain CSV download and the
    confirmed clearing of the stored log.

    `toFixed(2)` is floating-point formatting and is the parameter `fixed2`; the
    confirmation dialog is the parameter `confirmed`. */
module AttendanceList {
  import opened Common
  import opened Text
  import opened LocalStore
  import Seqs

  /** The first CSV row. */
  const Header: seq<string> := ["Name", "Time", "Date", "Confidence"]

  /** `record.confidence?.toFixed(2) || 'N/A'`: an absent confidence, or one that formats to
      the empty string, becomes `N/A`; a confidence of 0 is shown, unlike in the server's
      export. */
  function ConfidenceCell(confidence: Option<real>, fixed2: real -> string): (cell: string)
    ensures cell == "N/A" <==> confidence.None? || fixed2(confidence.value) in {"", "N/A"}
    ensures cell != ""
  {
    match confidence
    case None => "N/A"
    case Some(c) => if fixed2(c) == "" then "N/A" else fixed2(c)
  }

  /** The cells of one record's row. */
  function Row(e: LogEntry, fixed2: real -> string): (row: seq<string>)
    ensures |row| == |Header|
  {
    [e.name, e.time, e.date, ConfidenceCell(e.confidence, fixed2)]
  }

  /** The rows of the CSV: the header, then one row per record of today, in log order. */
  function CsvRows(attendance: seq<LogEntry>, today: string, fixed2: real -> string): (rows: seq<seq<string>>)
    ensures |rows| == 1 + |TodayRecords(attendance, today)|
    ensures rows[0] == Header
    ensures forall k :: 0 <= k < |TodayRecords(attendance, today)| ==>
              rows[k + 1] == Row(TodayRecords(attendance, today)[k], fixed2)
    ensures forall k :: 0 <= k < |rows| ==> |rows[k]| == |Header|
  {
    var todayRecords := TodayRecords(attendance, today);
    [Header] + seq(|todayRecords|, k requires 0 <= k < |todayRecords| => Row(todayRecords[k], fixed2))
  }

  /** `rows.map(row => row.join(',')).join('\n')`: no quoting at all. */
  function CsvText(rows: seq<seq<string>>): string {
    Join(seq(|rows|, k requires 0 <= k < |rows| => Join(rows[k], ",")), "\n")
  }

  /** The downloaded file's content. */
  function CsvContent(attendance: seq<LogEntry>, today: string, fixed2: real -> string): string {
    CsvText(CsvRows(attendance, today, fixed2))
  }

  /** A field that neither a comma nor a line break can split. */
  predicate PlainField(s: string) {
    ',' !in s && '\n' !in s
  }

  /** Splitting the text at line breaks and then at commas gives back the rows, as long as
      no field holds a comma or a line break. */
  lemma {:induction false} CsvTextReadsBack(rows: seq<seq<string>>)
    requires |rows| >= 1
    requires forall k :: 0 <= k < |rows| ==> |rows[k]| >= 1
    requires forall k, j :: 0 <= k < |rows| && 0 <= j < |rows[k]| ==> PlainField(rows[k][j])
    ensures |Split(CsvText(rows), '\n')| == |rows|
    ensures forall k :: 0 <= k < |rows| ==> Split(Split(CsvText(rows), '\n')[k], ',') == rows[k]
  {
    var lines := seq(|rows|, k requires 0 <= k < |rows| => Join(rows[k], ","));
    forall k | 0 <= k < |rows| ensures '\n' !in lines[k] && Split(lines[k], ',') == rows[k] {
      JoinChars(rows[k], ",", '\n');
      SplitJoin(rows[k], ',');
    }
    SplitJoin(lines, '\n');
  }

  /** Under the same condition, no cell of the CSV rows holds a comma or a line break. */
  lemma CsvRowsArePlain(attendance: seq<LogEntry>, today: string, fixed2: real -> string)
    requires forall e :: e in attendance && e.date == today ==>
               PlainField(e.name) && PlainField(e.time) && PlainField(e.date) && PlainField(ConfidenceCell(e.confidence, fixed2))
    ensures var rows := CsvRows(attendance, today, fixed2);
            forall k, j :: 0 <= k < |rows| && 0 <= j < |rows[k]| ==> PlainField(rows[k][j])
  {
    var rows := CsvRows(attendance, today, fixed2);
    var todayRecords := TodayRecords(attendance, today);
    forall k, j | 0 <= k < |rows| && 0 <= j < |rows[k]| ensures PlainField(rows[k][j]) {
      if k > 0 {
        assert rows[k] == Row(todayRecords[k - 1], fixed2);
        assert todayRecords[k - 1] in todayRecords;
      }
    }
  }

  /** The downloaded CSV reads back as the header and today's rows whenever no name, time,
      date or formatted confidence holds a comma or a line break. */
  lemma CsvContentReadsBack(attendance: seq<LogEntry>, today: string, fixed2: real -> string)
    requires forall e :: e in attendance && e.date == today ==>
               PlainField(e.name) && PlainField(e.time) && PlainField(e.date) && PlainField(ConfidenceCell(e.confidence, fixed2))
    ensures var lines := Split(CsvContent(attendance, today, fixed2), '\n');
            && |lines| == 1 + |TodayRecords(attendance, today)|
            && Split(lines[0], ',') == Header
            && forall k :: 0 <= k < |TodayRecords(attendance, today)| ==>
                 Split(lines[k + 1], ',') == Row(TodayRecords(attendance, today)[k], fixed2)
  {
    var rows := CsvRows(attendance, today, fixed2);
    var todayRecords := TodayRecords(attendance, today);
    CsvRowsArePlain(attendance, today, fixed2);
    CsvTextReadsBack(rows);
    var lines := Split(CsvText(rows), '\n');
    assert lines == Split(CsvContent(attendance, today, fixed2), '\n');
    assert Split(lines[0], ',') == rows[0] == Header;
    forall k | 0 <= k < |todayRecords| ensures Split(lines[k + 1], ',') == Row(todayRecords[k], fixed2) {
      assert Split(lines[k + 1], ',') == rows[k + 1];
    }
  }

  /** The joined row of the record named "Doe, Jane" is the join of five comma-free pieces. */
  lemma MisreadRowText(fixed2: real -> string)
    ensures Join(Row(LogEntry("Doe, Jane", "d", "9:00", "t", None, None), fixed2), ",")
            == Join(["Doe", " Jane", "9:00", "d", "N/A"], ",")
  {
    var e := LogEntry("Doe, Jane", "d", "9:00", "t", None, None);
    var row := Row(e, fixed2);
    assert ConfidenceCell(e.confidence, fixed2) == "N/A";
    assert row == ["Doe, Jane", "9:00", "d", "N/A"];
    var rest: seq<string> := ["9:00", "d", "N/A"];
    assert "Doe" + "," + " Jane" == "Doe, Jane";
    assert row == ["Doe" + "," + " Jane"] + rest;
    JoinSplitsPiece("Doe", " Jane", rest, ",");
    assert ["Doe", " Jane"] + rest == ["Doe", " Jane", "9:00", "d", "N/A"];
  }

  /** Without quoting, a comma in a name shifts the columns: the row for "Doe, Jane" reads
      back as five fields. */
  lemma CommaInNameIsMisread(fixed2: real -> string)
    ensures var row := Row(LogEntry("Doe, Jane", "d", "9:00", "t", None, None), fixed2);
            Split(Join(row, ","), ',') == ["Doe", " Jane", "9:00", "d", "N/A"]
  {
    MisreadRowText(fixed2);
    var five: seq<string> := ["Doe", " Jane", "9:00", "d", "N/A"];
    assert forall k :: 0 <= k < |five| ==> ',' !in five[k];
    SplitJoin(five, ',');
  }

  /** The "Present" figure: the number of records dated today. It is zero exactly when no
      record is dated today, and all of the log when every record is. */
  function Present(attendance: seq<LogEntry>, today: string): (n: nat)
    ensures n == |TodayRecords(attendance, today)| <= |attendance|
    ensures n == 0 <==> forall e :: e in attendance ==> e.date != today
    ensures (forall e :: e in attendance ==> e.date == today) ==> n == |attendance|
  {
    Seqs.FilterKeepsAll(attendance, DatedOn(today));
    |TodayRecords(attendance, today)|
  }

  /** The "Present" figure counts the log one entry at a time: nothing for an empty log, and
      one more for each further entry exactly when it is dated today. */
  lemma PresentCountsOneByOne(attendance: seq<LogEntry>, e: LogEntry, today: string)
    ensures Present([], today) == 0
    ensures Present(attendance + [e], today) == Present(attendance, today) + (if e.date == today then 1 else 0)
  {
    Seqs.FilterSnoc(attendance, e, DatedOn(today));
  }

  /** `handleClearRecords`: the stored log becomes empty only after confirmation. */
  method HandleClearRecords(storage: Storage, confirmed: bool)
    modifies storage
    ensures storage.todayAttendance == if confirmed then [] else old(storage.todayAttendance)
    ensures storage.registeredFaces == old(storage.registeredFaces)
  {
    if confirmed {
      storage.todayAttendance := [];
    }
  }
}
