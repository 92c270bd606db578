# FACE attendance: a verified model

FACE is a face-recognition attendance system. A camera page extracts a face descriptor
(a vector of 128 numbers) and compares it with the descriptors of registered people.
The closest one under a distance threshold is the person recognised, and attendance is
recorded for them once per day. The repository has two halves, and this model covers
both:

- **A server.** Next.js API routes over a relational database:
  - check-in and check-out (`/api/attendance`);
  - identification from a descriptor (`/api/face-recognition`);
  - a CSV export of one day (`/api/attendance/export`);
  - the matching service in `lib/`;
  - the dashboard's statistics.
- **A browser-only app.** It keeps its registered faces and its attendance log in
  `localStorage` and runs in three variants:
  - the `FacialRecognitionAttendance` class of `script.js`;
  - its YOLO variant;
  - the `useFaceRecognition` React hook.

  The components that list, export, clear and delete those records are modelled too, and
  so is the student list page.

## How the model is organised

| module (file) | models |
|---|---|
| `Common` (common.dfy) | `Option`, descriptors, thrown errors |
| `Seqs` (seqs.dfy) | `Array.prototype.filter` and its order facts; the "push the match when there is one" loop |
| `Text` (text.dfy) | `trim`, ASCII `toLowerCase`, `includes`, `join`, `split`, integer rendering, `padStart` |
| `Ordering` (ordering.dfy) | the database's `orderBy` as a sorted permutation |
| `Matching` (matching.dfy) | the threshold nearest-neighbour decision every matcher makes |
| `FaceRecognitionService`, `BrowserFaceRecognitionService` | `isFaceMatch` and `findBestMatch` of lib/ |
| `FaceRecognitionRoute` | `POST /api/face-recognition` |
| `AttendanceRoute` | `GET`/`POST /api/attendance`: a transition function `Step` and a class `AttendanceTable` proved against it |
| `AttendanceExport` | `GET /api/attendance/export`, plus a reader for the CSV it writes |
| `AttendanceDashboard` | `fetchStats` and `getStatusColor` |
| `LocalStore` | the two `localStorage` lists and the "push unless already logged today" loop they share |
| `ScriptAttendance` | the `FacialRecognitionAttendance` class of script.js |
| `YoloAttendance` | yolo-face-recognition.js |
| `FaceRecognitionHook` | hooks/use-face-recognition.ts |
| `AttendanceList`, `RegisteredFaces`, `StudentsPage` | the three list components |

### How the source is represented

**Imperative code.**
- Code that changes state step by step is a Dafny `class`. The fields are the ones the
  source mutates: the application object of script.js, the YOLO functions on that same
  object, the React hook's state, `localStorage` and the attendance table.
- Each loop is a `method` whose postcondition ties its result to a specification
  function. The properties are proved as lemmas about that function.

**Everything else.**
- Pure code becomes functions and lemmas.
- faceapi's Euclidean distance is an abstract parameter `dist`.
- `Math.sqrt`, `Math.random`, date formatting, `toFixed` and clock readings are parameters
  too.
- JavaScript's `Infinity` is a constructor of `Matching.Bound`.

**Where the code differs from the written design.** The model follows the code in each
of these cases.
- **One descriptor per person.** The design gives a person several reference
  descriptors, and the per-person minimum decides. The code stores one descriptor per
  face or employee.
- **No dimension check.** The design rejects a descriptor of the wrong length at
  enrolment, but no enrolment path checks it. In the server route, a stored vector
  shorter than the probe gives a NaN distance, so that employee is never matched
  (`FaceRecognitionRoute.ScoreOf`).
- **No ordering check on check-out.** The design asks that a check-out earlier than the
  check-in be rejected. The `POST` handler never compares the two times
  (`AttendanceRoute.CheckOutBeforeCheckIn`).
- **No `late` status.** The design sets `late` at check-in. The handler always stores
  `present`, and lateness exists only in the dashboard's count.
- **The first match, not the closest.** The design wants the closest match. script.js
  returns the first registered face under 0.6 (`Matching.FirstIsNotAlwaysClosest`).
- **A stricter threshold.** The YOLO variant uses 0.45, not 0.6.

## Model

| member | source | states |
|---|---|---|
| Matching.BestUnder | lib/face-recognition.ts:67-87 | the running-best scan with strict `<` returns none exactly when no distance is under the threshold; otherwise an index under it that no other qualifying entry beats, and which is strictly closer than every earlier one (first wins ties) |
| Matching.ClosestIsUnique | lib/face-recognition.ts:73-79 | the closest-under decision is deterministic: at most one index satisfies it |
| Matching.BestUnderTransfer | app/api/face-recognition/route.ts:49-55 | any rescaling that preserves the order of distances and their comparison with the threshold selects the same index |
| Matching.FirstUnder | script.js:162-172 | the early-return scan returns none exactly when nothing is under the threshold, otherwise the first index under it |
| Matching.FirstIsNotAlwaysClosest | script.js:165-169 | on distances [0.5, 0.1] with threshold 0.6 the first-under scan picks index 0 while the closest is index 1 |
| Matching.FirstAgreesWhenUnique | script.js:162-172 | first-under and closest-under agree on whether there is a match, and on the index when only one entry qualifies |
| FaceRecognitionService.BestMatchOf | lib/face-recognition.ts:67-87 | null iff `isFaceMatch` at 0.6 rejects every known face; otherwise the closest known face (first on ties) with confidence 1 - distance, which exceeds 0.4 and is at most 1 for non-negative distances |
| FaceRecognitionService.FindBestMatch | lib/face-recognition.ts:67-87 | the loop with `bestDistance = Infinity` computes exactly `BestMatchOf` |
| FaceRecognitionService.MatchThresholdIsFixed | lib/face-recognition.ts:62-65 | a face `isFaceMatch` accepts with threshold 0.8 (distance 0.7) is still no match for `findBestMatch`, whose 0.6 is hard-coded |
| FaceRecognitionService.TieKeepsFirst | lib/face-recognition.ts:76 | of two known faces at the same qualifying distance, the first is returned |
| BrowserFaceRecognitionService.FindBestMatch | lib/face-recognition-browser.ts:68-97 | the browser copy returns null iff `isFaceMatch` at its default threshold rejects every face, otherwise the closest face with confidence 1 - distance |
| FaceRecognitionRoute.Candidates | app/api/face-recognition/route.ts:22-35 | exactly the active employees with a stored descriptor |
| FaceRecognitionRoute.SumOfSquares | app/api/face-recognition/route.ts:49-52 | a partial sum of squared differences is never negative |
| FaceRecognitionRoute.SquaredDistance | app/api/face-recognition/route.ts:49-52 | NaN (None) exactly when the stored vector is shorter than the probe, otherwise a non-negative sum |
| FaceRecognitionRoute.AccumulateDistance | app/api/face-recognition/route.ts:49-52 | the `distance +=` loop computes `SquaredDistance` |
| FaceRecognitionRoute.ScoreOf | app/api/face-recognition/route.ts:43-71 | an employee is scored iff its descriptor is present, parses, and is at least as long as the probe; the score is the root of the squared sum |
| FaceRecognitionRoute.Score | app/api/face-recognition/route.ts:43-71 | the per-employee body (skip, parse, loop, `Math.sqrt`) computes `ScoreOf` |
| FaceRecognitionRoute.ScoredCandidates | app/api/face-recognition/route.ts:42-72 | the scored list has no more entries than there are candidates |
| FaceRecognitionRoute.ScoredCandidatesMembers | app/api/face-recognition/route.ts:42-72 | the scored list holds exactly the candidates that are not skipped, each with its own distance, so a failed parse does not stop the others |
| FaceRecognitionRoute.WinnerIsClosestUnder | app/api/face-recognition/route.ts:55-67 | none iff every scored distance is at least 0.6, otherwise the closest under 0.6, first on ties |
| FaceRecognitionRoute.Scan | app/api/face-recognition/route.ts:38-72 | the handler's loop with `bestDistance = Infinity` computes `Winner` of the scored candidates |
| FaceRecognitionRoute.Identify | app/api/face-recognition/route.ts:12-85 | a non-array body is the 400; otherwise "no match" iff no scored candidate is under 0.6, else the closest one's summary with confidence 1 - distance > 0.4 |
| FaceRecognitionRoute.Post | app/api/face-recognition/route.ts:5-93 | the handler's response equals `Identify` |
| FaceRecognitionRoute.SquareMonotone | app/api/face-recognition/route.ts:53 | squaring is strictly monotone on non-negative reals |
| FaceRecognitionRoute.SquaredSumsDecideAlike | app/api/face-recognition/route.ts:49-55 | with a true square root, comparing distances with 0.6 picks the same winner as comparing squared sums with 0.36 |
| FaceRecognitionRoute.EmptyProbeMatchesFirstCandidate | app/api/face-recognition/route.ts:14-19 | an empty descriptor array passes validation and matches the first scored candidate with confidence 1 |
| AttendanceRoute.Step | app/api/attendance/route.ts:53-155 | each 400 (missing fields, already checked in, no check-in, already checked out) happens exactly in its case and writes nothing; check-in creates the row under (employee, today); check-out sets only that row's check-out time, confidence and notes; another `type` writes nothing and returns the existing row |
| AttendanceRoute.StepPreservesValid | app/api/attendance/route.ts:73-78 | every transition keeps one row per (employee, day), each with a check-in time and a unique id |
| AttendanceRoute.CheckInOncePerDay | app/api/attendance/route.ts:82-88 | after a successful check-in, another check-in of that employee that day is "already checked in" and writes nothing |
| AttendanceRoute.CheckOutIsFinal | app/api/attendance/route.ts:111-124 | after a successful check-out, no request for that employee and day changes the table |
| AttendanceRoute.CheckInThenCheckOut | app/api/attendance/route.ts:82-145 | check-in then check-out leaves one `present` row with both times, the check-in's id, confidence and notes |
| AttendanceRoute.StepKeepsChronology | app/api/attendance/route.ts:80-129 | with a clock that does not run backwards, every row keeps check-in <= check-out <= now |
| AttendanceRoute.CheckOutBeforeCheckIn | app/api/attendance/route.ts:111-145 | a check-out stamped before the check-in is accepted, because the times are never compared |
| AttendanceRoute.AttendanceTable.constructor | lib/database.ts:42-54 | an empty table whose first id is 1 |
| AttendanceRoute.AttendanceTable.Post | app/api/attendance/route.ts:53-155 | the handler's writes and response are exactly `Step`, and the table stays well formed |
| AttendanceRoute.AttendanceTable.Get | app/api/attendance/route.ts:5-51 | exactly the rows whose stored date equals the given instant and whose employee matches, when those filters are given, each once, newest check-in first |
| Ordering.InsertPermutes | app/api/attendance/route.ts:40 | inserting a row adds exactly that row to the multiset of rows |
| Ordering.InsertKeepsSorted | app/api/attendance/route.ts:40 | inserting into a list sorted by the key keeps it sorted |
| Ordering.SortBy | app/api/attendance/export/route.ts:35 | the result is a permutation of the rows, sorted by the key |
| AttendanceExport.JsRem | app/api/attendance/export/route.ts:59 | JavaScript `%`: the remainder differs from the dividend by a multiple of m, lies strictly between -m and m and has the sign of the dividend |
| AttendanceExport.HoursWorked | app/api/attendance/export/route.ts:55-61 | the cell is empty iff a time is missing |
| AttendanceExport.HoursWorkedShape | app/api/attendance/export/route.ts:57-60 | for check-out >= check-in: h >= 0, 0 <= m < 60, h:m is the elapsed time floored to the minute, and the cell is the hours, a colon and two minute digits |
| AttendanceExport.NegativeDurationRendering | app/api/attendance/export/route.ts:57-60 | a check-out 1 ms before the check-in renders as "-1:-1" |
| AttendanceExport.Fields | app/api/attendance/export/route.ts:63-73 | nine cells; missing department or position is ""; hours empty iff a time is missing; confidence empty iff it is null or 0 |
| AttendanceExport.Selected | app/api/attendance/export/route.ts:20-36 | a permutation of the records stored under the given date instant, in check-in order |
| AttendanceExport.Rows | app/api/attendance/export/route.ts:39-76 | the header, then the fields of each record in order, every row nine cells long |
| AttendanceExport.Export | app/api/attendance/export/route.ts:16-78 | a missing date is the 400; otherwise the quoted, comma- and newline-joined document |
| AttendanceExport.ParseRenderRoundTrip | app/api/attendance/export/route.ts:76-78 | a reader for quoted fields gives back the rows of any document whose fields hold no double quote |
| AttendanceExport.ExportReadsBack | app/api/attendance/export/route.ts:16-78 | a day's export reads back as its header and rows whenever no cell holds a quote |
| AttendanceExport.QuoteInFieldIsMisread | app/api/attendance/export/route.ts:77 | quotes are not escaped, so the cell `a""` is read back as `a"` |
| AttendanceDashboard.StatsOf | components/attedance-dashboard.tsx:89-103 | present is the number of records; late is the number of records the after-09:00 filter keeps, at most present; absent = total - present; late is 0 iff no record is after 09:00 |
| AttendanceDashboard.LateCountsOneByOne | components/attedance-dashboard.tsx:91-96 | late is 0 for no records and grows by one exactly for each further record checked in after 09:00 |
| AttendanceDashboard.LateRecordsAreTheLateOnes | components/attedance-dashboard.tsx:91-96 | each record checked in after 09:00 is counted as often as it occurs, and no other record is counted |
| AttendanceDashboard.LateShrinksWithCutoff | components/attedance-dashboard.tsx:91-96 | a later cut-off never counts more people late |
| AttendanceDashboard.LateCountsExactlyLateRecords | components/attedance-dashboard.tsx:91-96 | late equals present iff every record is after 09:00 |
| AttendanceDashboard.AbsentCanBeNegative | components/attedance-dashboard.tsx:102 | `absent` is not clamped: one employee with two records gives -1 |
| AttendanceDashboard.Dashboard.FetchStats | components/attedance-dashboard.tsx:67-109 | the stats change, to `StatsOf`, only when both responses were ok |
| AttendanceDashboard.StatusColor | components/attedance-dashboard.tsx:136-143 | green iff present, yellow iff late, red iff absent, grey for any other status |
| LocalStore.FaceDistances | script.js:165-166 | the distance from the probe to each registered face, in list order |
| LocalStore.AppendNew | script.js:256-271 | the loop only appends to the log and never adds more than one entry per candidate |
| LocalStore.AppendNewKeepsOnePerNameDay | script.js:257-262 | a log with one entry per (name, date) keeps that shape however many times people are recognised |
| LocalStore.AppendNewRecordsAll | script.js:256-271 | afterwards every candidate's (name, date) is in the log |
| LocalStore.AppendNewOnlyFresh | script.js:256-271 | every appended entry is a candidate that was not in the log before |
| LocalStore.AppendNewAddsNothingIff | script.js:273-279 | nothing is appended iff every candidate was already logged, which is when "already marked" appears |
| LocalStore.TodayRecords | script.js:302 | exactly the entries dated today, in log order |
| ScriptAttendance.FirstMatch | script.js:162-172 | null iff every registered face is at distance >= 0.6, otherwise the first face under 0.6 in list order |
| ScriptAttendance.Recognized | script.js:239-246 | at most one person per detection, each a registered face |
| ScriptAttendance.RecognizedFollowsDetections | script.js:239-248 | the recognised people are, one for one and in detection order, the first matches of the detections that have one; the list is empty ("No registered faces recognized") exactly when no detection has a face under 0.6 |
| ScriptAttendance.Entries | script.js:262-268 | one entry per recognised person, with their name and today's date |
| ScriptAttendance.RegisterKeepsNamesDistinct | script.js:199-213 | registering only names not yet taken, ignoring case, keeps the names distinct up to case |
| ScriptAttendance.FacialRecognitionAttendance.constructor | script.js:13-14 | the lists start as the stored ones |
| ScriptAttendance.FacialRecognitionAttendance.FindFaceMatch | script.js:162-172 | the early-return loop computes `FirstMatch` |
| ScriptAttendance.FacialRecognitionAttendance.RegisterPerson | script.js:174-225 | each alert happens exactly in its case (empty trimmed name, no face, several faces, name taken ignoring case); otherwise one face with the trimmed name is appended and saved; names stay distinct up to case |
| ScriptAttendance.FacialRecognitionAttendance.RecognizeAll | script.js:239-246 | the first loop computes `Recognized` |
| ScriptAttendance.FacialRecognitionAttendance.LogPeople | script.js:253-271 | the second loop computes `AppendNew` of the entries and counts the appended ones |
| ScriptAttendance.FacialRecognitionAttendance.MarkAttendance | script.js:227-284 | the log becomes `AppendNew` of the recognised people's entries; each outcome (no face, none recognised, already marked, marked N) happens exactly in its case; storage is written only when something was marked |
| ScriptAttendance.FacialRecognitionAttendance.ClearAttendance | script.js:286-292 | only a confirmed clear empties the log and its stored copy |
| YoloAttendance.BestFaceMatchOf | yolo-face-recognition.js:1-19 | null iff every face is at distance >= 0.45, otherwise the closest face under 0.45 (first on ties) with its distance and confidence 1 - distance > 0.55 |
| YoloAttendance.DedupOnePerName | yolo-face-recognition.js:42-47 | the matches carry pairwise different names |
| YoloAttendance.DedupKeepsFirst | yolo-face-recognition.js:40-47 | each listed match was found for some crop, and no earlier crop was matched to that name |
| YoloAttendance.DedupNamesEveryMatch | yolo-face-recognition.js:42-47 | every name matched by some crop is listed |
| YoloAttendance.EntryFor | yolo-face-recognition.js:77-85 | the entry carries the person's name, today, their confidence and method "YOLO+FaceAPI" |
| YoloAttendance.GatedEntriesAreConfident | yolo-face-recognition.js:71-72 | every candidate entry is that of a recognised person with confidence > 0.7 |
| YoloAttendance.RecordedOnlyWhenConfident | yolo-face-recognition.js:71-89 | every entry appended is dated today, has confidence > 0.7 and method "YOLO+FaceAPI", and names a person matched at distance < 0.3 |
| YoloAttendance.YoloFaceAttendance.constructor | script.js:13-14 | the lists start as the stored ones |
| YoloAttendance.YoloFaceAttendance.FindBestFaceMatch | yolo-face-recognition.js:1-19 | the loop whose best distance starts at 0.45 computes `BestFaceMatchOf` |
| YoloAttendance.YoloFaceAttendance.MatchCrop | yolo-face-recognition.js:40-41 | a crop's best match, or none without a face |
| YoloAttendance.YoloFaceAttendance.RecognizeMultipleFaces | yolo-face-recognition.js:22-51 | the loop computes the deduplicated-by-name list of crop matches |
| YoloAttendance.YoloFaceAttendance.LogConfident | yolo-face-recognition.js:69-89 | the `forEach` computes `AppendNew` of the gated entries and counts the appended ones |
| YoloAttendance.YoloFaceAttendance.MarkAttendance | yolo-face-recognition.js:53-102 | the log becomes `AppendNew` of the confident people's entries; each outcome happens exactly in its case; storage is written only when something was marked |
| FaceRecognitionHook.MockDescriptor | hooks/use-face-recognition.ts:163 | 128 values, the i-th being the i-th random draw |
| FaceRecognitionHook.DemoEntry | hooks/use-face-recognition.ts:195-202 | the entry has the person's name, today and confidence 0.95 |
| FaceRecognitionHook.UseFaceRecognition.constructor | hooks/use-face-recognition.ts:38-49 | the state starts as the stored lists, with the camera off |
| FaceRecognitionHook.UseFaceRecognition.StartCamera | hooks/use-face-recognition.ts:51-81 | the flag is set iff the camera opened (or was already on); the lists are unchanged |
| FaceRecognitionHook.UseFaceRecognition.StopCamera | hooks/use-face-recognition.ts:83-107 | the flag is cleared; the lists are unchanged |
| FaceRecognitionHook.UseFaceRecognition.RegisterPerson | hooks/use-face-recognition.ts:150-170 | throws iff the camera is off; otherwise appends one face with a 128-value mock descriptor and saves the list |
| FaceRecognitionHook.UseFaceRecognition.MarkAttendance | hooks/use-face-recognition.ts:172-207 | throws exactly when the camera is off, no face is registered, or the first face is already logged today; otherwise appends its entry; that is `AppendNew` of the one entry, and one entry per (name, day) is preserved |
| AttendanceList.ConfidenceCell | facial-recognition-attendance/src/components/attendance-list.tsx:24 | "N/A" iff the confidence is absent or formats to "" (or to "N/A"); never empty |
| AttendanceList.CsvRows | facial-recognition-attendance/src/components/attendance-list.tsx:18-25 | the header first, then for each record of today, in log order, its name, time, date and confidence cell |
| AttendanceList.CsvTextReadsBack | facial-recognition-attendance/src/components/attendance-list.tsx:26 | splitting at line breaks, then at commas, gives back the rows when no field holds a comma or line break |
| AttendanceList.CsvContentReadsBack | facial-recognition-attendance/src/components/attendance-list.tsx:17-35 | the downloaded CSV reads back as the header and today's rows when no cell holds a comma or line break |
| AttendanceList.CommaInNameIsMisread | facial-recognition-attendance/src/components/attendance-list.tsx:26 | without quoting, the row of "Doe, Jane" reads back as five fields |
| AttendanceList.Present | facial-recognition-attendance/src/components/attendance-list.tsx:64 | the count is the number of today's records, at most the log's length, 0 iff no record is dated today, and the whole log when all are |
| AttendanceList.PresentCountsOneByOne | facial-recognition-attendance/src/components/attendance-list.tsx:14-15 | the count is 0 for an empty log and grows by one exactly for each further entry dated today |
| AttendanceList.HandleClearRecords | facial-recognition-attendance/src/components/attendance-list.tsx:37-42 | the stored log becomes empty only after confirmation |
| RegisteredFaces.WithoutFace | facial-recognition-attendance/src/components/registered-faces.tsx:16 | exactly the faces whose id differs, in their order |
| RegisteredFaces.DeleteAbsentIdKeepsList | facial-recognition-attendance/src/components/registered-faces.tsx:16 | deleting an id no face has leaves the list unchanged |
| RegisteredFaces.DeleteIsIdempotent | facial-recognition-attendance/src/components/registered-faces.tsx:16 | deleting twice is deleting once |
| RegisteredFaces.DeleteRemovesExactlyThatId | facial-recognition-attendance/src/components/registered-faces.tsx:16 | the list shrinks by exactly the number of faces with that id |
| RegisteredFaces.HandleDeleteFace | facial-recognition-attendance/src/components/registered-faces.tsx:14-20 | only a confirmed delete writes the filtered list; the log is untouched |
| StudentsPage.FilteredStudents | app/students/page.tsx:80-87 | exactly the students matching both the case-insensitive search and the class, in page order |
| StudentsPage.EmptySearchShowsAll | app/students/page.tsx:80-87 | an empty search with class "all" lists every student |
| StudentsPage.SearchIgnoresTermCase | app/students/page.tsx:81-84 | a lower-cased term lists the same students |
| StudentsPage.ClassNarrowsList | app/students/page.tsx:85 | one class lists no more students than all classes |
| StudentsPage.WithFaceData | app/students/page.tsx:190-194 | at most all students, and all of them iff every student has face data |
| StudentsPage.PendingSetup | app/students/page.tsx:195-198 | at most all students, and 0 iff every student has face data |
| StudentsPage.FaceCountsAddUp | app/students/page.tsx:188-198 | "With Face Data" plus "Pending Setup" equals "Total Students" |
| Text.TrimStart | script.js:175 | drops exactly a white-space prefix, leaving a non-space first character |
| Text.TrimEnd | script.js:175 | drops exactly a white-space suffix, leaving a non-space last character |
| Text.TrimEmptyIffBlank | script.js:175-179 | the trimmed name is empty iff the input is all white space |
| Text.TrimEnds | script.js:175 | the trimmed name has no white space at either end |
| Text.ToLower | script.js:200 | same length; each character lower-cased |
| Text.ToLowerIdempotent | app/students/page.tsx:81-84 | lower-casing twice is lower-casing once |
| Text.Split | facial-recognition-attendance/src/components/attendance-list.tsx:26 | at least one piece, none containing the separator |
| Text.SplitJoin | facial-recognition-attendance/src/components/attendance-list.tsx:26 | joining parts without the separator and splitting gives the parts back |
| Text.NatToStringRoundTrip | app/api/attendance/export/route.ts:60 | the decimal rendering reads back as the number and has no leading zero |
| Text.IntToString | app/api/attendance/export/route.ts:60 | non-negative numbers render as digits, negative ones as "-" and the digits of the magnitude |
| Text.PadStart | app/api/attendance/export/route.ts:60 | a string at least n long is unchanged; a shorter one gets fill characters in front up to length n |

## Left out

- **Authentication.** `verifyToken` and the 401 responses are not modelled. Neither are
  the 500 responses of the `catch` blocks, nor the `try`/`catch` alerts around detection.
- **Concurrent requests.** The model has one request at a time. The source reads the
  day's row (app/api/attendance/route.ts:73-78) and later creates it, so two concurrent
  check-ins could both pass. Uniqueness of (employee, day) holds only for sequential
  requests.
- **Floating-point details.**
  - Distances are exact reals.
  - faceapi's `euclideanDistance`, `Math.sqrt`, `toFixed`, `toLocaleTimeString` and
    date-fns `format` are parameters.
  - The rounding, overflow and NaN cases of JavaScript numbers are not modelled. The one
    exception is a NaN distance from a short stored vector.
- **Text.ToLower:** lower-cases ASCII letters only, not the full Unicode case mapping of
  `toLowerCase`.
- **Text.TrimStart:** the white-space set is that of ECMAScript, but strings are
  sequences of characters, not UTF-16 code units.
- **Model loading and detection.** Model loading, the camera stream, and face detection
  (faceapi, BlazeFace, the cropping of face boxes) are not modelled. Their results are
  parameters: the frame's descriptors, or one optional descriptor per crop. The periodic
  detection loop of the camera components is not modelled either.
- **Log entry ids.** The `id` of a log entry (`Date.now() + Math.random()`) is dropped
  from `LogEntry`, since nothing reads it. Every clock reading within one call is one
  parameter.
- **React asynchrony.** React's asynchronous `setState` is modelled as immediate
  assignment. The one-second simulated delays in the hook are left out.
- **The joined employee.** The `employee` object that `GET` and `POST` join into their
  responses is left out. The response holds the attendance row alone.
- AttendanceRoute.AttendanceTable.Get: `Day` is one integer instant. The source stores
  local midnight on `POST` (app/api/attendance/route.ts:69-70), but `GET` filters on
  `new Date(date)` of a `YYYY-MM-DD` string, which is UTC midnight (route.ts:19). On a
  server outside UTC the two differ, and a query for today can miss today's rows. The
  model compares whatever instant the caller passes; it does not derive it from a date
  string and a time-zone offset.
- AttendanceExport.Selected: the same holds for the export's `new Date(date)`
  (app/api/attendance/export/route.ts:22). "The records of the day" means the rows stored
  under exactly that instant.
- **Ties in `orderBy`.** The database may return rows with equal sort keys in any order.
  The model promises only a sorted permutation, and a null check-in time sorts with key 0.
- **`parseInt`.** Its NaN result on a non-numeric `employeeId` is not modelled. The
  request carries the parsed number, or none when the value is falsy.
- **UI.** Markup, status messages other than the modelled outcomes, the average
  attendance figure and the static data of the pages are left out.
- **The matcher's setup.** The singleton of the matching service is not modelled, and
  neither are `initialize`, `detectFace` and `extractFaceDescriptor`. They load models
  and run detection.
