/** The matching half of `FaceRecognitionService` (lib/face-recognition.ts).

    `compareFaces` is faceapi's Euclidean distance, computed by a foreign library; it is
    the parameter `dist` here. Model loading, detection and the singleton are not modelled. */
module FaceRecognitionService {
  import opened Common
  import opened Matching

  /** One entry of `knownDescriptors`. */
  datatype KnownFace = KnownFace(id: int, descriptor: Descriptor, name: string)

  /** The object `findBestMatch` resolves to when a face matches. */
  datatype BestMatch = BestMatch(id: int, name: string, confidence: real)

  /** The default `threshold` parameter of `isFaceMatch`. */
  const DefaultThreshold: real := 0.6

  /** The threshold written into `findBestMatch`; `isFaceMatch`'s parameter does not reach it. */
  const MatchThreshold: real := 0.6

  /** `isFaceMatch(d1, d2, threshold)`: the two descriptors are closer than `threshold`. */
  predicate IsFaceMatch(dist: (Descriptor, Descriptor) -> real, d1: Descriptor, d2: Descriptor, threshold: real) {
    dist(d1, d2) < threshold
  }

  /** The distance from `input` to each known descriptor, in list order. */
  function Distances(dist: (Descriptor, Descriptor) -> real, input: Descriptor, known: seq<KnownFace>): seq<real> {
    seq(|known|, j requires 0 <= j < |known| => dist(input, known[j].descriptor))
  }

  /** What `findBestMatch` resolves to: null when no known face matches under 0.6, otherwise
      the id and name of the closest one (the earliest on ties) with confidence 1 - distance. */
  function BestMatchOf(dist: (Descriptor, Descriptor) -> real, input: Descriptor, known: seq<KnownFace>): (r: Option<BestMatch>)
    ensures r.None? <==> forall j :: 0 <= j < |known| ==> !IsFaceMatch(dist, input, known[j].descriptor, MatchThreshold)
    ensures r.Some? ==> exists i :: IsClosestUnder(Distances(dist, input, known), MatchThreshold, i)
                                   && r.value == BestMatch(known[i].id, known[i].name, 1.0 - dist(input, known[i].descriptor))
    ensures r.Some? ==> 0.4 < r.value.confidence
    ensures r.Some? && (forall a, b :: dist(a, b) >= 0.0) ==> r.value.confidence <= 1.0
  {
    var ds := Distances(dist, input, known);
    assert forall j :: 0 <= j < |known| ==> ds[j] == dist(input, known[j].descriptor);
    match BestUnder(ds, MatchThreshold)
    case None => None
    case Some(i) => Some(BestMatch(known[i].id, known[i].name, Confidence(ds[i])))
  }

  /** `findBestMatch`: one pass over the known faces keeping the best distance so far,
      which starts at `Infinity`. */
  method FindBestMatch(dist: (Descriptor, Descriptor) -> real, inputDescriptor: Descriptor, knownDescriptors: seq<KnownFace>)
    returns (bestMatch: Option<BestMatch>)
    ensures bestMatch == BestMatchOf(dist, inputDescriptor, knownDescriptors)
  {
    ghost var ds := Distances(dist, inputDescriptor, knownDescriptors);
    ghost var best: Option<nat> := None;
    bestMatch := None;
    var bestDistance := Infinity;
    for i := 0 to |knownDescriptors|
      invariant best == BestUnder(ds[..i], MatchThreshold)
      invariant best.None? ==> bestMatch.None? && bestDistance == Infinity
      invariant best.Some? ==>
        && best.value < i
        && bestDistance == At(ds[best.value])
        && bestMatch == Some(BestMatch(knownDescriptors[best.value].id, knownDescriptors[best.value].name, Confidence(ds[best.value])))
    {
      var known := knownDescriptors[i];
      var distance := dist(inputDescriptor, known.descriptor);
      assert ds[..i + 1][..i] == ds[..i];
      if Below(distance, bestDistance) && distance < MatchThreshold {
        bestDistance := At(distance);
        bestMatch := Some(BestMatch(known.id, known.name, Confidence(distance)));
        best := Some(i);
      }
    }
    assert ds[..|knownDescriptors|] == ds;
  }

  /** The hard-coded 0.6 of `findBestMatch` does not follow `isFaceMatch`'s threshold:
      a face that `isFaceMatch` accepts at 0.8 is still no match for `findBestMatch`. */
  lemma MatchThresholdIsFixed()
    ensures var dist := (a: Descriptor, b: Descriptor) => 0.7;
            var known := [KnownFace(1, [], "A")];
            IsFaceMatch(dist, [], [], 0.8) && BestMatchOf(dist, [], known) == None
  {
    var dist := (a: Descriptor, b: Descriptor) => 0.7;
    var known := [KnownFace(1, [], "A")];
    assert Distances(dist, [], known) == [0.7];
  }

  /** On two known faces at exactly the same qualifying distance the first one is returned. */
  lemma TieKeepsFirst(dist: (Descriptor, Descriptor) -> real, input: Descriptor, a: KnownFace, b: KnownFace)
    requires dist(input, a.descriptor) == dist(input, b.descriptor) < MatchThreshold
    ensures BestMatchOf(dist, input, [a, b]) == Some(BestMatch(a.id, a.name, 1.0 - dist(input, a.descriptor)))
  {
    var ds := Distances(dist, input, [a, b]);
    assert ds[0] == ds[1];
  }
}
