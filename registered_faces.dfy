/** Deleting a registered face (facial-recognition-attendance/src/components/registered-faces.tsx):
    the list without every face of the given id, written back to `localStorage` once the
    user confirms. */
module RegisteredFaces {
  import opened LocalStore
  import Seqs

  /** `face => face.id !== faceId`. */
  function Keeps(faceId: string): Face -> bool {
    (f: Face) => f.id != faceId
  }

  /** `faces.filter(face => face.id !== faceId)`. */
  function WithoutFace(faces: seq<Face>, faceId: string): (r: seq<Face>)
    ensures forall f :: f in r <==> f in faces && f.id != faceId
    ensures Seqs.IsSubsequence(r, faces)
  {
    Seqs.FilterIsSubsequence(faces, Keeps(faceId));
    Seqs.Filter(faces, Keeps(faceId))
  }

  /** Deleting an id that no face has leaves the list as it is. */
  lemma DeleteAbsentIdKeepsList(faces: seq<Face>, faceId: string)
    requires forall f :: f in faces ==> f.id != faceId
    ensures WithoutFace(faces, faceId) == faces
  {
    Seqs.FilterKeepsAll(faces, Keeps(faceId));
  }

  /** Deleting twice is deleting once. */
  lemma DeleteIsIdempotent(faces: seq<Face>, faceId: string)
    ensures WithoutFace(WithoutFace(faces, faceId), faceId) == WithoutFace(faces, faceId)
  {
    Seqs.FilterIdempotent(faces, Keeps(faceId));
  }

  /** The list shrinks by exactly the number of faces with that id. */
  lemma DeleteRemovesExactlyThatId(faces: seq<Face>, faceId: string)
    ensures |WithoutFace(faces, faceId)| + |Seqs.Filter(faces, (f: Face) => f.id == faceId)| == |faces|
  {
    Seqs.FilterSplitsLength(faces, (f: Face) => f.id == faceId, Keeps(faceId));
  }

  /** `handleDeleteFace`: nothing is written unless the user confirms. */
  method HandleDeleteFace(storage: Storage, faces: seq<Face>, faceId: string, confirmed: bool)
    modifies storage
    ensures storage.registeredFaces == if confirmed then WithoutFace(faces, faceId) else old(storage.registeredFaces)
    ensures storage.todayAttendance == old(storage.todayAttendance)
  {
    if confirmed {
      var updatedFaces := WithoutFace(faces, faceId);
      storage.registeredFaces := updatedFaces;
    }
  }
}
