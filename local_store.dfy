/** The browser-side records kept in `localStorage` under the keys `registeredFaces` and
    `todayAttendance`, shared by script.js, yolo-face-recognition.js, the
    `useFaceRecognition` hook and the attendance components (types/attendance.ts).

    Dates are the strings `new Date().toDateString()` yields, compared with `===`;
    clock readings and identifiers derived from the clock or from `Math.random` are
    passed in as strings. */
module LocalStore {
  import opened Common
  import Seqs

  /** A registered face (`RegisteredFace`). */
  datatype Face = Face(
    id: string, name: string, department: Option<string>, studentId: Option<string>,
    descriptor: Descriptor, registeredAt: string)

  /** An attendance log entry (`AttendanceRecord` of types/attendance.ts, without its
      random `id`); `detectionMethod` is the `method` field. */
  datatype LogEntry = LogEntry(
    name: string, date: string, time: string, timestamp: string,
    confidence: Option<real>, detectionMethod: Option<string>)

  /** The two `localStorage` keys, each holding its JSON list (an absent key reads as the
      empty list, through `JSON.parse(null) || []`). */
  class Storage {
    var registeredFaces: seq<Face>
    var todayAttendance: seq<LogEntry>

    constructor(faces: seq<Face>, log: seq<LogEntry>)
      ensures registeredFaces == faces && todayAttendance == log
    {
      registeredFaces := faces;
      todayAttendance := log;
    }
  }

  /** The distance from `descriptor` to each registered face, in list order. */
  function FaceDistances(dist: (Descriptor, Descriptor) -> real, descriptor: Descriptor, faces: seq<Face>): (ds: seq<real>)
    ensures |ds| == |faces| && forall i :: 0 <= i < |faces| ==> ds[i] == dist(descriptor, faces[i].descriptor)
  {
    seq(|faces|, i requires 0 <= i < |faces| => dist(descriptor, faces[i].descriptor))
  }

  /** `log.find(att => att.name === name && att.date === date)` is truthy. */
  predicate Recorded(log: seq<LogEntry>, name: string, date: string) {
    exists i | 0 <= i < |log| :: log[i].name == name && log[i].date == date
  }

  /** No two entries share a name and a date. */
  ghost predicate OnePerNameDay(log: seq<LogEntry>) {
    forall i, j :: 0 <= i < j < |log| ==> !(log[i].name == log[j].name && log[i].date == log[j].date)
  }

  /** The `forEach` that pushes each candidate entry unless its (name, date) is already in
      the log, the log including the entries pushed before it. */
  function AppendNew(log: seq<LogEntry>, cands: seq<LogEntry>): (r: seq<LogEntry>)
    ensures |log| <= |r| <= |log| + |cands|
    ensures r[..|log|] == log
    decreases |cands|
  {
    if cands == [] then log
    else
      var n := |cands| - 1;
      var prev := AppendNew(log, cands[..n]);
      if Recorded(prev, cands[n].name, cands[n].date) then prev else prev + [cands[n]]
  }

  /** One more candidate: the `forEach` body. */
  lemma AppendNewStep(log: seq<LogEntry>, cands: seq<LogEntry>, i: nat)
    requires i < |cands|
    ensures AppendNew(log, cands[..i + 1]) ==
              var prev := AppendNew(log, cands[..i]);
              if Recorded(prev, cands[i].name, cands[i].date) then prev else prev + [cands[i]]
  {
    assert cands[..i + 1][..i] == cands[..i];
  }

  /** One more candidate at the end of the list. */
  lemma AppendNewSnoc(log: seq<LogEntry>, cands: seq<LogEntry>, c: LogEntry)
    ensures AppendNew(log, cands + [c]) ==
              var prev := AppendNew(log, cands);
              if Recorded(prev, c.name, c.date) then prev else prev + [c]
  {
    assert (cands + [c])[..|cands|] == cands;
  }

  /** A single candidate is appended exactly when its (name, date) is new, and one entry
      per name and day is kept. */
  lemma AppendNewOne(log: seq<LogEntry>, c: LogEntry)
    ensures AppendNew(log, [c]) == if Recorded(log, c.name, c.date) then log else log + [c]
    ensures OnePerNameDay(log) ==> OnePerNameDay(AppendNew(log, [c]))
  {
    AppendNewSnoc(log, [], c);
    assert [] + [c] == [c];
    if OnePerNameDay(log) {
      AppendNewKeepsOnePerNameDay(log, [c]);
    }
  }

  /** An entry recorded in a log stays recorded in any extension of it. */
  lemma RecordedInExtension(log: seq<LogEntry>, r: seq<LogEntry>, name: string, date: string)
    requires |log| <= |r| && r[..|log|] == log
    requires Recorded(log, name, date)
    ensures Recorded(r, name, date)
  {
    var i :| 0 <= i < |log| && log[i].name == name && log[i].date == date;
    assert r[i] == log[i];
  }

  /** Marking never creates a second entry for a (name, date): a log with one entry per
      name and day keeps that shape, however many times a person is recognised. */
  lemma {:induction false} AppendNewKeepsOnePerNameDay(log: seq<LogEntry>, cands: seq<LogEntry>)
    requires OnePerNameDay(log)
    ensures OnePerNameDay(AppendNew(log, cands))
    decreases |cands|
  {
    if cands != [] {
      var n := |cands| - 1;
      AppendNewKeepsOnePerNameDay(log, cands[..n]);
      var prev := AppendNew(log, cands[..n]);
      if !Recorded(prev, cands[n].name, cands[n].date) {
        var r := prev + [cands[n]];
        forall i, j | 0 <= i < j < |r| ensures !(r[i].name == r[j].name && r[i].date == r[j].date) {
          if j == |prev| {
            assert r[i] == prev[i];
          }
        }
      }
    }
  }

  /** After marking, every candidate's (name, date) is in the log. */
  lemma {:induction false} AppendNewRecordsAll(log: seq<LogEntry>, cands: seq<LogEntry>)
    ensures forall k :: 0 <= k < |cands| ==> Recorded(AppendNew(log, cands), cands[k].name, cands[k].date)
    decreases |cands|
  {
    if cands != [] {
      var n := |cands| - 1;
      AppendNewRecordsAll(log, cands[..n]);
      var prev := AppendNew(log, cands[..n]);
      var r := AppendNew(log, cands);
      forall k | 0 <= k < |cands| ensures Recorded(r, cands[k].name, cands[k].date) {
        if k < n {
          assert cands[..n][k] == cands[k];
          RecordedInExtension(prev, r, cands[k].name, cands[k].date);
        } else if !Recorded(prev, cands[n].name, cands[n].date) {
          assert r[|prev|] == cands[n];
        }
      }
    }
  }

  /** Every entry the marking appends is one of the candidates and was new to the log. */
  lemma {:induction false} AppendNewOnlyFresh(log: seq<LogEntry>, cands: seq<LogEntry>)
    ensures forall k :: |log| <= k < |AppendNew(log, cands)| ==>
              && AppendNew(log, cands)[k] in cands
              && !Recorded(log, AppendNew(log, cands)[k].name, AppendNew(log, cands)[k].date)
    decreases |cands|
  {
    if cands != [] {
      var n := |cands| - 1;
      AppendNewOnlyFresh(log, cands[..n]);
      var prev := AppendNew(log, cands[..n]);
      var r := AppendNew(log, cands);
      forall k | |log| <= k < |r| ensures r[k] in cands && !Recorded(log, r[k].name, r[k].date) {
        if k < |prev| {
          assert r[k] == prev[k];
          assert prev[k] in cands[..n];
          var j :| 0 <= j < n && cands[..n][j] == prev[k];
          assert cands[j] == prev[k];
        } else if !Recorded(log, cands[n].name, cands[n].date) {
        } else {
          RecordedInExtension(log, prev, cands[n].name, cands[n].date);
        }
      }
    }
  }

  /** Nothing is appended exactly when every candidate's (name, date) was already logged:
      this is when the "already marked" message appears and storage is left alone. */
  lemma {:induction false} AppendNewAddsNothingIff(log: seq<LogEntry>, cands: seq<LogEntry>)
    ensures AppendNew(log, cands) == log <==>
              forall k :: 0 <= k < |cands| ==> Recorded(log, cands[k].name, cands[k].date)
    decreases |cands|
  {
    AppendNewRecordsAll(log, cands);
    if cands != [] {
      var n := |cands| - 1;
      AppendNewAddsNothingIff(log, cands[..n]);
      var prev := AppendNew(log, cands[..n]);
      if forall k :: 0 <= k < |cands| ==> Recorded(log, cands[k].name, cands[k].date) {
        assert forall k :: 0 <= k < n ==> cands[..n][k] == cands[k];
        assert prev == log;
      }
    }
  }

  /** `record => record.date === today`. */
  function DatedOn(today: string): LogEntry -> bool {
    (e: LogEntry) => e.date == today
  }

  /** The entries whose date is `today`, in log order (the "today" view of the log). */
  function TodayRecords(log: seq<LogEntry>, today: string): (r: seq<LogEntry>)
    ensures forall e :: e in r <==> e in log && e.date == today
    ensures Seqs.IsSubsequence(r, log)
  {
    Seqs.FilterIsSubsequence(log, DatedOn(today));
    Seqs.Filter(log, DatedOn(today))
  }
}
