/** The YOLO variant of the attendance app (yolo-face-recognition.js): its three functions
    are methods of the same application object as script.js, reading `this.registeredFaces`
    and `this.todayAttendance`.

    BlazeFace's face boxes and faceapi's detection on each cropped box are the parameter
    `crops`: one entry per box, holding the descriptor of the first face found in the crop,
    or `None` when the crop yields no face. Alerts are the outcome values. */
module YoloAttendance {
  import opened Common
  import opened Matching
  import opened LocalStore
  import Seqs

  /** `threshold` of `findBestFaceMatch`, which is also the starting `bestDistance`. */
  const YoloThreshold: real := 0.45

  /** The confidence a recognised person needs before attendance is recorded. */
  const MarkingConfidence: real := 0.7

  /** The `method` field written on every entry this variant records. */
  const DetectionMethod: string := "YOLO+FaceAPI"

  /** `{...registeredFace, distance, confidence}`. */
  datatype FaceMatch = FaceMatch(face: Face, distance: real, confidence: real)

  /** What `findBestFaceMatch` returns: the registered face closest to `descriptor` among those
      strictly under 0.45, the earliest on ties, with its distance and confidence; or null. */
  function BestFaceMatchOf(dist: (Descriptor, Descriptor) -> real, descriptor: Descriptor, faces: seq<Face>): (r: Option<FaceMatch>)
    ensures r.None? <==> forall i :: 0 <= i < |faces| ==> dist(descriptor, faces[i].descriptor) >= YoloThreshold
    ensures r.Some? ==> exists i :: && IsClosestUnder(FaceDistances(dist, descriptor, faces), YoloThreshold, i)
                                     && r.value.face == faces[i]
                                     && r.value.distance == dist(descriptor, faces[i].descriptor)
    ensures r.Some? ==> r.value.distance < YoloThreshold && r.value.confidence == 1.0 - r.value.distance
    ensures r.Some? ==> r.value.confidence > 0.55
  {
    var ds := FaceDistances(dist, descriptor, faces);
    match BestUnder(ds, YoloThreshold)
    case None => None
    case Some(i) => Some(FaceMatch(faces[i], ds[i], Confidence(ds[i])))
  }

  /** `matches.find(p => p.name === name)` is truthy. */
  predicate NameIn(matches: seq<FaceMatch>, name: string) {
    exists i | 0 <= i < |matches| :: matches[i].face.name == name
  }

  /** The best match of each crop, in order; `None` for a crop without a face. */
  function CropMatches(dist: (Descriptor, Descriptor) -> real, crops: seq<Option<Descriptor>>, faces: seq<Face>): (found: seq<Option<FaceMatch>>) {
    seq(|crops|, k requires 0 <= k < |crops| => if crops[k].None? then None else BestFaceMatchOf(dist, crops[k].value, faces))
  }

  /** The `matches` list of `recognizeMultipleFaces`: each found match in order, unless a
      match of the same name is already listed. */
  function DedupByName(found: seq<Option<FaceMatch>>): (r: seq<FaceMatch>)
    ensures |r| <= |found|
    decreases |found|
  {
    if found == [] then []
    else
      var n := |found| - 1;
      var prev := DedupByName(found[..n]);
      match found[n]
      case None => prev
      case Some(m) => if NameIn(prev, m.face.name) then prev else prev + [m]
  }

  /** One more crop at the end. */
  lemma DedupByNameSnoc(found: seq<Option<FaceMatch>>, f: Option<FaceMatch>)
    ensures DedupByName(found + [f]) ==
              var prev := DedupByName(found);
              match f
              case None => prev
              case Some(m) => if NameIn(prev, m.face.name) then prev else prev + [m]
  {
    assert (found + [f])[..|found|] == found;
  }

  /** The loop body of `recognizeMultipleFaces` on crop `i`. */
  lemma DedupStep(found: seq<Option<FaceMatch>>, i: nat)
    requires i < |found|
    ensures DedupByName(found[..i + 1]) ==
              var prev := DedupByName(found[..i]);
              if found[i].Some? && !NameIn(prev, found[i].value.face.name) then prev + [found[i].value] else prev
  {
    assert found[..i + 1] == found[..i] + [found[i]];
    DedupByNameSnoc(found[..i], found[i]);
  }

  /** The matches of `recognizeMultipleFaces` carry pairwise different names. */
  ghost predicate OnePerName(matches: seq<FaceMatch>) {
    forall i, j :: 0 <= i < j < |matches| ==> matches[i].face.name != matches[j].face.name
  }

  /** At most one match per name. */
  lemma {:induction false} DedupOnePerName(found: seq<Option<FaceMatch>>)
    ensures OnePerName(DedupByName(found))
    decreases |found|
  {
    if found != [] {
      var n := |found| - 1;
      DedupOnePerName(found[..n]);
      var prev := DedupByName(found[..n]);
      var r := DedupByName(found);
      if r != prev {
        var m := r[|prev|];
        assert r == prev + [m] && !NameIn(prev, m.face.name);
        forall i, j | 0 <= i < j < |r| ensures r[i].face.name != r[j].face.name {
          if j == |prev| {
            assert r[i] == prev[i];
          }
        }
      }
    }
  }

  /** Each listed match is the first match found for its name: it was found at some crop
      and no earlier crop was matched to the same name. */
  lemma {:induction false} DedupKeepsFirst(found: seq<Option<FaceMatch>>)
    ensures forall i :: 0 <= i < |DedupByName(found)| ==>
              exists k :: && 0 <= k < |found| && found[k] == Some(DedupByName(found)[i])
                          && forall k' :: 0 <= k' < k ==> found[k'].None? || found[k'].value.face.name != DedupByName(found)[i].face.name
    decreases |found|
  {
    if found != [] {
      var n := |found| - 1;
      var front := found[..n];
      DedupKeepsFirst(front);
      var prev := DedupByName(front);
      var r := DedupByName(found);
      forall i | 0 <= i < |r|
        ensures exists k :: && 0 <= k < |found| && found[k] == Some(r[i])
                            && forall k' :: 0 <= k' < k ==> found[k'].None? || found[k'].value.face.name != r[i].face.name
      {
        if i < |prev| {
          assert r[i] == prev[i];
          var k :| && 0 <= k < |front| && front[k] == Some(prev[i])
                   && forall k' :: 0 <= k' < k ==> front[k'].None? || front[k'].value.face.name != prev[i].face.name;
          assert found[k] == front[k];
          assert forall k' :: 0 <= k' < k ==> found[k'] == front[k'];
        } else {
          DedupNamesEveryMatch(front);
          assert found[n] == Some(r[i]) && !NameIn(prev, r[i].face.name);
          forall k' | 0 <= k' < n ensures found[k'].None? || found[k'].value.face.name != r[i].face.name {
            assert found[k'] == front[k'];
          }
        }
      }
    } else {
      assert DedupByName(found) == [];
    }
  }

  /** Every found match has its name listed: a later crop of an already listed name is
      dropped, not lost. */
  lemma {:induction false} DedupNamesEveryMatch(found: seq<Option<FaceMatch>>)
    ensures forall k :: 0 <= k < |found| && found[k].Some? ==> NameIn(DedupByName(found), found[k].value.face.name)
    decreases |found|
  {
    if found != [] {
      var n := |found| - 1;
      var front := found[..n];
      DedupNamesEveryMatch(front);
      var prev := DedupByName(front);
      var r := DedupByName(found);
      assert forall j :: 0 <= j < |prev| ==> r[j] == prev[j];
      forall k | 0 <= k < |found| && found[k].Some? ensures NameIn(r, found[k].value.face.name) {
        var name := found[k].value.face.name;
        if k < n {
          assert front[k] == found[k];
          var j :| 0 <= j < |prev| && prev[j].face.name == name;
          assert r[j] == prev[j];
        } else if NameIn(prev, name) {
          var j :| 0 <= j < |prev| && prev[j].face.name == name;
          assert r[j] == prev[j];
        } else {
          assert r[|prev|].face.name == name;
        }
      }
    }
  }

  /** `person.confidence > 0.7`. */
  predicate Confident(m: FaceMatch) {
    m.confidence > MarkingConfidence
  }

  /** The entry `markAttendance` pushes for a recognised person. */
  function EntryFor(m: FaceMatch, today: string, time: string, timestamp: string): (e: LogEntry)
    ensures e.name == m.face.name && e.date == today
    ensures e.confidence == Some(m.confidence) && e.detectionMethod == Some(DetectionMethod)
  {
    LogEntry(m.face.name, today, time, timestamp, Some(m.confidence), Some(DetectionMethod))
  }

  /** The candidate entries: one per recognised person over the confidence gate, in order. */
  function GatedEntries(people: seq<FaceMatch>, today: string, time: string, timestamp: string): seq<LogEntry> {
    var gated := Seqs.Filter(people, Confident);
    seq(|gated|, i requires 0 <= i < |gated| => EntryFor(gated[i], today, time, timestamp))
  }

  /** Every candidate entry is that of a recognised person over the confidence gate. */
  lemma GatedEntriesAreConfident(people: seq<FaceMatch>, today: string, time: string, timestamp: string)
    ensures forall e :: e in GatedEntries(people, today, time, timestamp) ==>
              exists m :: m in people && Confident(m) && e == EntryFor(m, today, time, timestamp)
  {
    var gated := Seqs.Filter(people, Confident);
    forall e | e in GatedEntries(people, today, time, timestamp)
      ensures exists m :: m in people && Confident(m) && e == EntryFor(m, today, time, timestamp)
    {
      var i :| 0 <= i < |gated| && e == EntryFor(gated[i], today, time, timestamp);
      assert gated[i] in gated;
    }
  }

  /** One more recognised person at the end. */
  lemma GatedEntriesSnoc(people: seq<FaceMatch>, m: FaceMatch, today: string, time: string, timestamp: string)
    ensures GatedEntries(people + [m], today, time, timestamp) ==
              GatedEntries(people, today, time, timestamp) + (if Confident(m) then [EntryFor(m, today, time, timestamp)] else [])
  {
    Seqs.FilterSnoc(people, m, Confident);
  }

  /** One pass of the `forEach` body over person `people[i]`. */
  lemma GatedStep(log0: seq<LogEntry>, people: seq<FaceMatch>, i: nat, today: string, time: string, timestamp: string)
    requires i < |people|
    ensures var log := AppendNew(log0, GatedEntries(people[..i], today, time, timestamp));
            var m := people[i];
            AppendNew(log0, GatedEntries(people[..i + 1], today, time, timestamp)) ==
              if Confident(m) && !Recorded(log, m.face.name, today) then log + [EntryFor(m, today, time, timestamp)] else log
  {
    assert people[..i + 1] == people[..i] + [people[i]];
    GatedEntriesSnoc(people[..i], people[i], today, time, timestamp);
    var prev := GatedEntries(people[..i], today, time, timestamp);
    if Confident(people[i]) {
      AppendNewSnoc(log0, prev, EntryFor(people[i], today, time, timestamp));
    } else {
      assert prev + [] == prev;
    }
  }

  /** Everything this variant records comes from a person over the confidence gate, i.e. at
      distance below 0.3, and carries that confidence and `method: 'YOLO+FaceAPI'`. */
  lemma RecordedOnlyWhenConfident(log: seq<LogEntry>, people: seq<FaceMatch>, today: string, time: string, timestamp: string)
    requires forall m :: m in people ==> m.confidence == 1.0 - m.distance
    ensures var r := AppendNew(log, GatedEntries(people, today, time, timestamp));
            forall k :: |log| <= k < |r| ==>
              && r[k].date == today
              && r[k].confidence.Some? && r[k].confidence.value > MarkingConfidence
              && r[k].detectionMethod == Some(DetectionMethod)
              && exists m :: m in people && m.distance < 0.3 && r[k].name == m.face.name
  {
    var cands := GatedEntries(people, today, time, timestamp);
    GatedEntriesAreConfident(people, today, time, timestamp);
    AppendNewOnlyFresh(log, cands);
  }

  datatype MarkOutcome =
    | NoFaceInFrame      // "No face detected. ..."
    | NoneRecognized     // "No registered faces recognized with sufficient confidence. ..."
    | Marked(count: nat) // "Attendance marked for N person(s) using YOLO detection!"
    | AlreadyMarked      // "Attendance already marked for all recognized faces today."

  class YoloFaceAttendance {
    var registeredFaces: seq<Face>
    var todayAttendance: seq<LogEntry>
    const storage: Storage

    /** The lists start as what `localStorage` holds. */
    constructor(storage: Storage)
      ensures this.storage == storage
      ensures registeredFaces == storage.registeredFaces && todayAttendance == storage.todayAttendance
    {
      this.storage := storage;
      registeredFaces := storage.registeredFaces;
      todayAttendance := storage.todayAttendance;
    }

    /** `findBestFaceMatch`: a scan whose running best distance starts at the threshold. */
    method FindBestFaceMatch(dist: (Descriptor, Descriptor) -> real, descriptor: Descriptor) returns (bestMatch: Option<FaceMatch>)
      ensures bestMatch == BestFaceMatchOf(dist, descriptor, registeredFaces)
    {
      ghost var ds := FaceDistances(dist, descriptor, registeredFaces);
      ghost var best: Option<nat> := None;
      bestMatch := None;
      var bestDistance := YoloThreshold;
      for i := 0 to |registeredFaces|
        invariant best == BestUnder(ds[..i], YoloThreshold)
        invariant best.None? ==> bestMatch.None? && bestDistance == YoloThreshold
        invariant best.Some? ==>
          && best.value < i
          && bestDistance == ds[best.value]
          && bestMatch == Some(FaceMatch(registeredFaces[best.value], ds[best.value], Confidence(ds[best.value])))
      {
        var registeredFace := registeredFaces[i];
        var distance := dist(descriptor, registeredFace.descriptor);
        assert ds[..i + 1] == ds[..i] + [distance];
        BestUnderSnoc(ds[..i], distance, YoloThreshold);
        if distance < bestDistance {
          bestDistance := distance;
          bestMatch := Some(FaceMatch(registeredFace, distance, Confidence(distance)));
          best := Some(i);
        }
      }
      assert ds[..|registeredFaces|] == ds;
    }

    /** The body of `recognizeMultipleFaces` for one crop: the best match of its first
        detected face, if any. */
    method MatchCrop(dist: (Descriptor, Descriptor) -> real, crop: Option<Descriptor>) returns (bestMatch: Option<FaceMatch>)
      ensures bestMatch == if crop.None? then None else BestFaceMatchOf(dist, crop.value, registeredFaces)
    {
      if crop.Some? {
        bestMatch := FindBestFaceMatch(dist, crop.value);
      } else {
        bestMatch := None;
      }
    }

    /** `recognizeMultipleFaces`: the best match of each crop, skipping names already matched. */
    method RecognizeMultipleFaces(dist: (Descriptor, Descriptor) -> real, crops: seq<Option<Descriptor>>)
      returns (matches: seq<FaceMatch>)
      ensures matches == DedupByName(CropMatches(dist, crops, registeredFaces))
    {
      ghost var found := CropMatches(dist, crops, registeredFaces);
      matches := [];
      for i := 0 to |crops|
        invariant matches == DedupByName(found[..i])
      {
        var bestMatch := MatchCrop(dist, crops[i]);
        assert bestMatch == found[i];
        DedupStep(found, i);
        if bestMatch.Some? && !NameIn(matches, bestMatch.value.face.name) {
          matches := matches + [bestMatch.value];
        }
      }
      assert found[..|crops|] == found;
    }

    /** The `forEach` of `markAttendance`: push an entry for each confident person not yet
        logged today, counting the pushes. */
    method LogConfident(recognizedPeople: seq<FaceMatch>, today: string, time: string, timestamp: string)
      returns (newAttendances: nat)
      modifies this`todayAttendance
      ensures todayAttendance == AppendNew(old(todayAttendance), GatedEntries(recognizedPeople, today, time, timestamp))
      ensures newAttendances == |todayAttendance| - |old(todayAttendance)|
    {
      ghost var log0 := todayAttendance;
      newAttendances := 0;
      for i := 0 to |recognizedPeople|
        invariant todayAttendance == AppendNew(log0, GatedEntries(recognizedPeople[..i], today, time, timestamp))
        invariant newAttendances == |todayAttendance| - |log0|
      {
        var person := recognizedPeople[i];
        GatedStep(log0, recognizedPeople, i, today, time, timestamp);
        if person.confidence > MarkingConfidence {
          if !Recorded(todayAttendance, person.face.name, today) {
            todayAttendance := todayAttendance + [EntryFor(person, today, time, timestamp)];
            newAttendances := newAttendances + 1;
          }
        }
      }
      assert recognizedPeople[..|recognizedPeople|] == recognizedPeople;
    }

    /** `markAttendance`: recognise every crop, then record each confident person once per
        day; the log is saved only when something was added. */
    method MarkAttendance(dist: (Descriptor, Descriptor) -> real, crops: seq<Option<Descriptor>>,
                          today: string, time: string, timestamp: string)
      returns (outcome: MarkOutcome)
      modifies this`todayAttendance, storage`todayAttendance
      ensures var people := DedupByName(CropMatches(dist, crops, old(registeredFaces)));
              var log := AppendNew(old(todayAttendance), GatedEntries(people, today, time, timestamp));
              && todayAttendance == log
              && outcome == if |crops| == 0 then NoFaceInFrame
                            else if people == [] then NoneRecognized
                            else if log == old(todayAttendance) then AlreadyMarked
                            else Marked(|log| - |old(todayAttendance)|)
      ensures storage.todayAttendance == if outcome.Marked? then todayAttendance else old(storage.todayAttendance)
      ensures registeredFaces == old(registeredFaces) && storage.registeredFaces == old(storage.registeredFaces)
    {
      if |crops| == 0 {
        assert CropMatches(dist, crops, registeredFaces) == [];
        assert GatedEntries([], today, time, timestamp) == [];
        return NoFaceInFrame;
      }
      var recognizedPeople := RecognizeMultipleFaces(dist, crops);
      if |recognizedPeople| == 0 {
        assert GatedEntries(recognizedPeople, today, time, timestamp) == [];
        return NoneRecognized;
      }
      var newAttendances := LogConfident(recognizedPeople, today, time, timestamp);
      if newAttendances > 0 {
        storage.todayAttendance := todayAttendance;
        outcome := Marked(newAttendances);
      } else {
        assert todayAttendance == todayAttendance[..|old(todayAttendance)|];
        outcome := AlreadyMarked;
      }
    }
  }
}
