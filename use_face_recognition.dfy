/** The `useFaceRecognition` React hook (hooks/use-face-recognition.ts): its demo
    registration and marking, whose state lives in `useState` and is mirrored in
    `localStorage`.

    The hook's state is a class; a committed `setState` is an assignment to the field.
    The camera (`getUserMedia`, `video.play`) succeeds or fails as the parameter
    `cameraOpened`; the mock descriptor's `Math.random()` draws are the parameter `random`;
    clock readings and `Date.now()` ids are string parameters. A thrown `Error` is
    `Thrown(message)`. */
module FaceRecognitionHook {
  import opened Common
  import opened LocalStore

  /** The confidence every demo attendance entry carries. */
  const DemoConfidence: real := 0.95

  const CameraNotStartedForRegistration: string := "Camera must be started to register faces"
  const CameraNotStartedForAttendance: string := "Camera must be started to mark attendance"
  const NoRegisteredFaces: string := "No registered faces found"
  const AlreadyMarkedToday: string := "Attendance already marked for this person today"

  /** The mock descriptor: 128 draws of the random source. */
  function MockDescriptor(random: nat -> real): (d: Descriptor)
    ensures |d| == DescriptorLength
    ensures forall i :: 0 <= i < |d| ==> d[i] == random(i)
  {
    seq(DescriptorLength, (i: nat) => random(i))
  }

  /** The entry `markAttendance` appends for `person`. */
  function DemoEntry(person: Face, today: string, time: string, timestamp: string): (e: LogEntry)
    ensures e.name == person.name && e.date == today && e.confidence == Some(DemoConfidence)
  {
    LogEntry(person.name, today, time, timestamp, Some(DemoConfidence), None)
  }

  class UseFaceRecognition {
    var isVideoStarted: bool
    var registeredFaces: seq<Face>
    var todayAttendance: seq<LogEntry>
    const storage: Storage

    /** The initial state after `loadStoredData`: the stored lists, with the camera off. */
    constructor(storage: Storage)
      ensures this.storage == storage && !isVideoStarted
      ensures registeredFaces == storage.registeredFaces && todayAttendance == storage.todayAttendance
    {
      this.storage := storage;
      isVideoStarted := false;
      registeredFaces := storage.registeredFaces;
      todayAttendance := storage.todayAttendance;
    }

    /** `startCamera`: the flag is set only when the stream and the video elements were
        obtained; a failure leaves it as it was. */
    method StartCamera(cameraOpened: bool)
      modifies this
      ensures isVideoStarted == (old(isVideoStarted) || cameraOpened)
      ensures registeredFaces == old(registeredFaces) && todayAttendance == old(todayAttendance)
    {
      if cameraOpened {
        isVideoStarted := true;
      }
    }

    /** `stopCamera`. */
    method StopCamera()
      modifies this
      ensures !isVideoStarted
      ensures registeredFaces == old(registeredFaces) && todayAttendance == old(todayAttendance)
    {
      isVideoStarted := false;
    }

    /** `registerPerson`: refuses while the camera is off; otherwise appends one face with
        a 128-value mock descriptor after all existing faces, and saves the list. No name
        check is made: the same name may be registered twice. */
    method RegisterPerson(name: string, department: Option<string>, studentId: Option<string>,
                          random: nat -> real, id: string, registeredAt: string)
      returns (outcome: Outcome)
      modifies this, storage
      ensures outcome == if old(isVideoStarted) then Done else Thrown(CameraNotStartedForRegistration)
      ensures outcome.Done? ==>
                && registeredFaces == old(registeredFaces) + [Face(id, name, department, studentId, MockDescriptor(random), registeredAt)]
                && |registeredFaces[|registeredFaces| - 1].descriptor| == DescriptorLength
                && storage.registeredFaces == registeredFaces
      ensures outcome.Thrown? ==> registeredFaces == old(registeredFaces) && storage.registeredFaces == old(storage.registeredFaces)
      ensures isVideoStarted == old(isVideoStarted)
      ensures todayAttendance == old(todayAttendance) && storage.todayAttendance == old(storage.todayAttendance)
    {
      if !isVideoStarted {
        return Thrown(CameraNotStartedForRegistration);
      }
      var newFace := Face(id, name, department, studentId, MockDescriptor(random), registeredAt);
      var updatedFaces := registeredFaces + [newFace];
      registeredFaces := updatedFaces;
      storage.registeredFaces := updatedFaces;
      outcome := Done;
    }

    /** `markAttendance`: refuses while the camera is off, when no face is registered, and
        when the first registered face already has an entry today; otherwise appends one
        entry for that face with confidence 0.95 and saves the log. */
    method MarkAttendance(today: string, time: string, timestamp: string) returns (outcome: Outcome)
      modifies this, storage
      ensures outcome == if !old(isVideoStarted) then Thrown(CameraNotStartedForAttendance)
                         else if |registeredFaces| == 0 then Thrown(NoRegisteredFaces)
                         else if Recorded(old(todayAttendance), registeredFaces[0].name, today) then Thrown(AlreadyMarkedToday)
                         else Done
      ensures outcome.Done? ==>
                && todayAttendance == old(todayAttendance) + [DemoEntry(registeredFaces[0], today, time, timestamp)]
                && storage.todayAttendance == todayAttendance
      ensures outcome.Thrown? ==> todayAttendance == old(todayAttendance) && storage.todayAttendance == old(storage.todayAttendance)
      ensures old(isVideoStarted) && |registeredFaces| > 0 ==>
                todayAttendance == AppendNew(old(todayAttendance), [DemoEntry(registeredFaces[0], today, time, timestamp)])
      ensures OnePerNameDay(old(todayAttendance)) ==> OnePerNameDay(todayAttendance)
      ensures isVideoStarted == old(isVideoStarted)
      ensures registeredFaces == old(registeredFaces) && storage.registeredFaces == old(storage.registeredFaces)
    {
      if !isVideoStarted {
        return Thrown(CameraNotStartedForAttendance);
      }
      if |registeredFaces| == 0 {
        return Thrown(NoRegisteredFaces);
      }
      var recognizedPerson := registeredFaces[0];
      var entry := DemoEntry(recognizedPerson, today, time, timestamp);
      AppendNewOne(todayAttendance, entry);
      if Recorded(todayAttendance, recognizedPerson.name, today) {
        return Thrown(AlreadyMarkedToday);
      }
      var updatedAttendance := todayAttendance + [entry];
      todayAttendance := updatedAttendance;
      storage.todayAttendance := updatedAttendance;
      outcome := Done;
    }
  }
}
