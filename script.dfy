/** The `FacialRecognitionAttendance` class of script.js: registering people and marking
    attendance from the faces detected in the camera frame, with both lists mirrored in
    `localStorage`.

    Face detection is the parameter `detections` (the descriptors faceapi returns for the
    current frame) and faceapi's Euclidean distance is the parameter `dist`; alerts are
    the outcome values. */
module ScriptAttendance {
  import opened Common
  import opened Matching
  import opened Text
  import opened LocalStore
  import Seqs

  /** The `threshold` of `findFaceMatch`. */
  const MatchThreshold: real := 0.6

  /** What `findFaceMatch` returns: the first registered face closer than 0.6, in list
      order, which need not be the closest one; null when there is none. */
  function FirstMatch(dist: (Descriptor, Descriptor) -> real, descriptor: Descriptor, faces: seq<Face>): (r: Option<Face>)
    ensures r.None? <==> forall i :: 0 <= i < |faces| ==> dist(descriptor, faces[i].descriptor) >= MatchThreshold
    ensures r.Some? ==> exists i :: && 0 <= i < |faces| && r.value == faces[i]
                                     && dist(descriptor, faces[i].descriptor) < MatchThreshold
                                     && forall j :: 0 <= j < i ==> dist(descriptor, faces[j].descriptor) >= MatchThreshold
  {
    var ds := FaceDistances(dist, descriptor, faces);
    match FirstUnder(ds, MatchThreshold)
    case None => None
    case Some(i) => Some(faces[i])
  }

  /** `findFaceMatch` as a function of the descriptor. */
  function MatchIn(dist: (Descriptor, Descriptor) -> real, faces: seq<Face>): Descriptor -> Option<Face> {
    (d: Descriptor) => FirstMatch(dist, d, faces)
  }

  /** `recognizedPeople`: the match of each detection that has one, in detection order. */
  function Recognized(dist: (Descriptor, Descriptor) -> real, detections: seq<Descriptor>, faces: seq<Face>): (r: seq<Face>)
    ensures |r| <= |detections|
    ensures forall i :: 0 <= i < |r| ==> r[i] in faces
    decreases |detections|
  {
    if detections == [] then []
    else
      var n := |detections| - 1;
      Recognized(dist, detections[..n], faces)
      + match FirstMatch(dist, detections[n], faces) { case Some(f) => [f] case None => [] }
  }

  /** `Recognized` pushes the match of each detection that has one. */
  lemma {:induction false} RecognizedCollects(dist: (Descriptor, Descriptor) -> real, detections: seq<Descriptor>, faces: seq<Face>)
    ensures Recognized(dist, detections, faces) == Seqs.Collect(detections, MatchIn(dist, faces))
    decreases |detections|
  {
    if detections != [] {
      RecognizedCollects(dist, detections[..|detections| - 1], faces);
    }
  }

  /** The recognised people are, one for one and in detection order, the first matches of
      the detections that have a match; there are none ("No registered faces recognized")
      exactly when no detection has a face under the threshold. */
  lemma RecognizedFollowsDetections(dist: (Descriptor, Descriptor) -> real, detections: seq<Descriptor>, faces: seq<Face>)
    ensures var matched := Seqs.Filter(detections, Seqs.Defined(MatchIn(dist, faces)));
            var r := Recognized(dist, detections, faces);
            && |r| == |matched|
            && (forall i :: 0 <= i < |r| ==> FirstMatch(dist, matched[i], faces) == Some(r[i]))
            && (r == [] <==> forall i :: 0 <= i < |detections| ==> FirstMatch(dist, detections[i], faces).None?)
  {
    RecognizedCollects(dist, detections, faces);
    Seqs.CollectFollowsFilter(detections, MatchIn(dist, faces));
  }

  /** The entries `markAttendance` would push for `people`, one each, stamped with today's
      date string and the clock readings. */
  function Entries(people: seq<Face>, today: string, time: string, timestamp: string): (es: seq<LogEntry>)
    ensures |es| == |people|
    ensures forall i :: 0 <= i < |people| ==> es[i].name == people[i].name && es[i].date == today
  {
    seq(|people|, i requires 0 <= i < |people| => LogEntry(people[i].name, today, time, timestamp, None, None))
  }

  /** Some registered face has `name`, ignoring case. */
  predicate NameTaken(faces: seq<Face>, name: string) {
    exists i | 0 <= i < |faces| :: ToLower(faces[i].name) == ToLower(name)
  }

  /** No two registered faces have names equal up to case. */
  ghost predicate DistinctNames(faces: seq<Face>) {
    forall i, j :: 0 <= i < j < |faces| ==> ToLower(faces[i].name) != ToLower(faces[j].name)
  }

  /** Registering only names not yet taken keeps the names distinct up to case. */
  lemma RegisterKeepsNamesDistinct(faces: seq<Face>, face: Face)
    requires DistinctNames(faces) && !NameTaken(faces, face.name)
    ensures DistinctNames(faces + [face])
  {
    var r := faces + [face];
    forall i, j | 0 <= i < j < |r| ensures ToLower(r[i].name) != ToLower(r[j].name) {
      if j == |faces| {
        assert r[i] == faces[i];
      }
    }
  }

  datatype RegisterOutcome =
    | EmptyName          // "Please enter a person's name."
    | NoFaceDetected     // "No face detected. ..."
    | MultipleFaces      // "Multiple faces detected. ..."
    | AlreadyRegistered  // "A person with this name is already registered."
    | Registered

  datatype MarkOutcome =
    | NoFaceInFrame      // "No face detected. ..."
    | NoneRecognized     // "No registered faces recognized. ..."
    | Marked(count: nat) // "Attendance marked for N person(s)!"
    | AlreadyMarked      // "Attendance already marked for all recognized faces today."

  class FacialRecognitionAttendance {
    var registeredFaces: seq<Face>
    var todayAttendance: seq<LogEntry>
    const storage: Storage

    /** The lists start as what `localStorage` holds. */
    constructor(storage: Storage)
      ensures this.storage == storage
      ensures registeredFaces == storage.registeredFaces && todayAttendance == storage.todayAttendance
    {
      this.storage := storage;
      registeredFaces := storage.registeredFaces;
      todayAttendance := storage.todayAttendance;
    }

    /** `findFaceMatch`: the loop returns at the first face under the threshold. */
    method FindFaceMatch(dist: (Descriptor, Descriptor) -> real, descriptor: Descriptor) returns (found: Option<Face>)
      ensures found == FirstMatch(dist, descriptor, registeredFaces)
    {
      for i := 0 to |registeredFaces|
        invariant forall j :: 0 <= j < i ==> dist(descriptor, registeredFaces[j].descriptor) >= MatchThreshold
      {
        var distance := dist(descriptor, registeredFaces[i].descriptor);
        if distance < MatchThreshold {
          return Some(registeredFaces[i]);
        }
      }
      return None;
    }

    /** `registerPerson`: the trimmed name must be non-empty, exactly one face must be in the
        frame and the name must be new ignoring case; then one face is appended and the
        list is saved. */
    method RegisterPerson(personNameInput: string, detections: seq<Descriptor>, id: string, registeredAt: string)
      returns (outcome: RegisterOutcome)
      modifies this, storage
      ensures var personName := Trim(personNameInput);
              outcome == if personName == [] then EmptyName
                         else if |detections| == 0 then NoFaceDetected
                         else if |detections| > 1 then MultipleFaces
                         else if NameTaken(old(registeredFaces), personName) then AlreadyRegistered
                         else Registered
      ensures outcome == Registered ==>
                && registeredFaces == old(registeredFaces) + [Face(id, Trim(personNameInput), None, None, detections[0], registeredAt)]
                && storage.registeredFaces == registeredFaces
      ensures outcome != Registered ==>
                registeredFaces == old(registeredFaces) && storage.registeredFaces == old(storage.registeredFaces)
      ensures DistinctNames(old(registeredFaces)) ==> DistinctNames(registeredFaces)
      ensures todayAttendance == old(todayAttendance) && storage.todayAttendance == old(storage.todayAttendance)
    {
      var personName := Trim(personNameInput);
      if personName == [] {
        outcome := EmptyName;
      } else if |detections| == 0 {
        outcome := NoFaceDetected;
      } else if |detections| > 1 {
        outcome := MultipleFaces;
      } else if NameTaken(registeredFaces, personName) {
        outcome := AlreadyRegistered;
      } else {
        var newFace := Face(id, personName, None, None, detections[0], registeredAt);
        if DistinctNames(registeredFaces) {
          RegisterKeepsNamesDistinct(registeredFaces, newFace);
        }
        registeredFaces := registeredFaces + [newFace];
        storage.registeredFaces := registeredFaces;
        outcome := Registered;
      }
    }

    /** The first loop of `markAttendance`: the match of each detection, in order. */
    method RecognizeAll(dist: (Descriptor, Descriptor) -> real, detections: seq<Descriptor>)
      returns (recognizedPeople: seq<Face>)
      ensures recognizedPeople == Recognized(dist, detections, registeredFaces)
    {
      recognizedPeople := [];
      for i := 0 to |detections|
        invariant recognizedPeople == Recognized(dist, detections[..i], registeredFaces)
      {
        assert detections[..i + 1][..i] == detections[..i];
        var found := FindFaceMatch(dist, detections[i]);
        if found.Some? {
          recognizedPeople := recognizedPeople + [found.value];
        }
      }
      assert detections[..|detections|] == detections;
    }

    /** The second loop of `markAttendance`: push an entry for each recognised person not
        yet logged today, counting the pushes. */
    method LogPeople(recognizedPeople: seq<Face>, today: string, time: string, timestamp: string)
      returns (newAttendances: nat)
      modifies this
      ensures todayAttendance == AppendNew(old(todayAttendance), Entries(recognizedPeople, today, time, timestamp))
      ensures newAttendances == |todayAttendance| - |old(todayAttendance)|
      ensures registeredFaces == old(registeredFaces)
    {
      ghost var entries := Entries(recognizedPeople, today, time, timestamp);
      ghost var log0 := todayAttendance;
      newAttendances := 0;
      for i := 0 to |recognizedPeople|
        invariant todayAttendance == AppendNew(log0, entries[..i])
        invariant newAttendances == |todayAttendance| - |log0|
        invariant registeredFaces == old(registeredFaces)
      {
        var person := recognizedPeople[i];
        AppendNewStep(log0, entries, i);
        if !Recorded(todayAttendance, person.name, today) {
          todayAttendance := todayAttendance + [LogEntry(person.name, today, time, timestamp, None, None)];
          newAttendances := newAttendances + 1;
        }
      }
      assert entries[..|recognizedPeople|] == entries;
    }

    /** `markAttendance`: every detection is matched, and each recognised person gets an
        entry for today unless one exists; the log is saved only when something was added. */
    method MarkAttendance(dist: (Descriptor, Descriptor) -> real, detections: seq<Descriptor>,
                          today: string, time: string, timestamp: string)
      returns (outcome: MarkOutcome)
      modifies this, storage
      ensures var people := Recognized(dist, detections, old(registeredFaces));
              var log := AppendNew(old(todayAttendance), Entries(people, today, time, timestamp));
              && todayAttendance == log
              && outcome == if |detections| == 0 then NoFaceInFrame
                            else if people == [] then NoneRecognized
                            else if log == old(todayAttendance) then AlreadyMarked
                            else Marked(|log| - |old(todayAttendance)|)
      ensures storage.todayAttendance == if outcome.Marked? then todayAttendance else old(storage.todayAttendance)
      ensures registeredFaces == old(registeredFaces) && storage.registeredFaces == old(storage.registeredFaces)
    {
      if |detections| == 0 {
        assert Recognized(dist, detections, registeredFaces) == [];
        return NoFaceInFrame;
      }
      var recognizedPeople := RecognizeAll(dist, detections);
      if |recognizedPeople| == 0 {
        assert Entries(recognizedPeople, today, time, timestamp) == [];
        return NoneRecognized;
      }
      var newAttendances := LogPeople(recognizedPeople, today, time, timestamp);
      if newAttendances > 0 {
        storage.todayAttendance := todayAttendance;
        outcome := Marked(newAttendances);
      } else {
        assert |todayAttendance| == |old(todayAttendance)|;
        outcome := AlreadyMarked;
      }
    }

    /** `clearAttendance`: only a confirmed request empties the log and its stored copy. */
    method ClearAttendance(confirmed: bool)
      modifies this, storage
      ensures todayAttendance == (if confirmed then [] else old(todayAttendance))
      ensures storage.todayAttendance == (if confirmed then [] else old(storage.todayAttendance))
      ensures registeredFaces == old(registeredFaces) && storage.registeredFaces == old(storage.registeredFaces)
    {
      if confirmed {
        todayAttendance := [];
        storage.todayAttendance := todayAttendance;
      }
    }
  }
}
