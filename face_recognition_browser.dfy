/** The matching half of `BrowserFaceRecognitionService` (lib/face-recognition-browser.ts).

    The file repeats `compareFaces`, `isFaceMatch` and `findBestMatch` of lib/face-recognition.ts
    line for line (same strict comparisons, same hard-coded 0.6), so this module runs the
    same scan; canvas helpers are not modelled. */
module BrowserFaceRecognitionService {
  import opened Common
  import opened Matching
  import F = FaceRecognitionService

  /** `findBestMatch` of the browser service: null exactly when `isFaceMatch` at its default
      threshold rejects every known face; otherwise the closest one, the first on ties. */
  method FindBestMatch(dist: (Descriptor, Descriptor) -> real, inputDescriptor: Descriptor, knownDescriptors: seq<F.KnownFace>)
    returns (bestMatch: Option<F.BestMatch>)
    ensures bestMatch.None? <==>
              forall j :: 0 <= j < |knownDescriptors| ==>
                !F.IsFaceMatch(dist, inputDescriptor, knownDescriptors[j].descriptor, F.DefaultThreshold)
    ensures bestMatch.Some? ==>
              exists i :: IsClosestUnder(F.Distances(dist, inputDescriptor, knownDescriptors), F.MatchThreshold, i)
                          && bestMatch.value.id == knownDescriptors[i].id
                          && bestMatch.value.name == knownDescriptors[i].name
                          && bestMatch.value.confidence == 1.0 - dist(inputDescriptor, knownDescriptors[i].descriptor)
  {
    bestMatch := F.FindBestMatch(dist, inputDescriptor, knownDescriptors);
  }
}
