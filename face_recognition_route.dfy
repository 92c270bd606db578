/** `POST /api/face-recognition` (app/api/face-recognition/route.ts): identify an employee
    from a face descriptor sent by the camera page.

    The handler validates the body, loads the active employees that have a stored
    descriptor, and scans them: each stored descriptor is parsed from JSON, its Euclidean
    distance to the probe is computed by an explicit loop, and the closest employee strictly
    under 0.6 wins. `Math.sqrt` is the parameter `root`; authentication and the database
    itself are not modelled (the query result is the parameter `employees`). */
module FaceRecognitionRoute {
  import opened Common
  import opened Matching
  import Seqs

  /** The `faceDescriptor` column of an employee, as the scan sees it. */
  datatype StoredDescriptor =
    | Blank                      // the empty string: falsy, skipped by `continue`
    | Malformed                  // `JSON.parse` throws: logged, and the scan moves on
    | Parsed(values: seq<real>)  // a JSON array of numbers

  datatype Employee = Employee(
    id: int, employeeId: string, firstName: string, lastName: string,
    department: Option<string>, isActive: bool, faceDescriptor: Option<StoredDescriptor>)

  /** The employee fields the response carries. */
  datatype EmployeeSummary = EmployeeSummary(
    id: int, employeeId: string, firstName: string, lastName: string, department: Option<string>)

  /** The `faceDescriptor` field of the request body. */
  datatype ProbeField =
    | Missing               // absent or falsy
    | NotArray              // present but not an array
    | Array(values: seq<real>)

  datatype Response =
    | BadRequest(error: string)                                  // status 400
    | Matched(employee: EmployeeSummary, confidence: real)       // `match: true`
    | NoMatch(message: string)                                   // `match: false`

  const Threshold: real := 0.6

  function Summary(e: Employee): EmployeeSummary {
    EmployeeSummary(e.id, e.employeeId, e.firstName, e.lastName, e.department)
  }

  /** The query `isActive: true, faceDescriptor: { not: null }`, in table order. */
  function Candidates(employees: seq<Employee>): (r: seq<Employee>)
    ensures forall e :: e in r <==> e in employees && e.isActive && e.faceDescriptor.Some?
  {
    Seqs.Filter(employees, (e: Employee) => e.isActive && e.faceDescriptor.Some?)
  }

  /** The sum of the first `n` squared component differences. */
  function SumOfSquares(probe: seq<real>, stored: seq<real>, n: nat): (r: real)
    requires n <= |probe| && n <= |stored|
    ensures r >= 0.0
  {
    if n == 0 then 0.0
    else SumOfSquares(probe, stored, n - 1) + (probe[n - 1] - stored[n - 1]) * (probe[n - 1] - stored[n - 1])
  }

  /** The squared Euclidean distance over the probe's indices, or None for NaN: a stored
      vector shorter than the probe yields `undefined` components and so NaN. */
  function SquaredDistance(probe: seq<real>, stored: seq<real>): (r: Option<real>)
    ensures r.None? <==> |stored| < |probe|
    ensures r.Some? ==> r.value >= 0.0
  {
    if |stored| < |probe| then None else Some(SumOfSquares(probe, stored, |probe|))
  }

  /** The `distance +=` loop, before `Math.sqrt`; None stands for NaN. */
  method AccumulateDistance(faceDescriptor: seq<real>, storedDescriptor: seq<real>) returns (distance: Option<real>)
    ensures distance == SquaredDistance(faceDescriptor, storedDescriptor)
  {
    distance := Some(0.0);
    for i := 0 to |faceDescriptor|
      invariant distance == if i <= |storedDescriptor| then Some(SumOfSquares(faceDescriptor, storedDescriptor, i)) else None
    {
      if distance.Some? && i < |storedDescriptor| {
        var d := faceDescriptor[i] - storedDescriptor[i];
        distance := Some(distance.value + d * d);
        assert distance.value == SumOfSquares(faceDescriptor, storedDescriptor, i + 1);
      } else {
        distance := None;
      }
    }
  }

  /** The distance the scan compares for one employee, or None when it skips the employee:
      a blank descriptor (`continue`), one that does not parse (the `catch`), or a NaN
      distance, which no `<` accepts. */
  function ScoreOf(e: Employee, probe: seq<real>, root: real -> real): (r: Option<real>)
    ensures r.Some? <==> e.faceDescriptor.Some? && e.faceDescriptor.value.Parsed?
                         && |e.faceDescriptor.value.values| >= |probe|
    ensures r.Some? ==> r.value == root(SumOfSquares(probe, e.faceDescriptor.value.values, |probe|))
  {
    match e.faceDescriptor
    case Some(Parsed(stored)) =>
      (match SquaredDistance(probe, stored)
       case Some(sum) => Some(root(sum))
       case None => None)
    case _ => None
  }

  /** The body of the scan for one employee: parse, then the distance loop and `Math.sqrt`. */
  method Score(employee: Employee, faceDescriptor: seq<real>, root: real -> real) returns (distance: Option<real>)
    ensures distance == ScoreOf(employee, faceDescriptor, root)
  {
    match employee.faceDescriptor {
      case Some(Parsed(storedDescriptor)) =>
        var sum := AccumulateDistance(faceDescriptor, storedDescriptor);
        distance := if sum.Some? then Some(root(sum.value)) else None;
      case _ =>
        distance := None;
    }
  }

  /** A candidate together with the distance the scan compares. */
  datatype Scored = Scored(employee: Employee, distance: real)

  /** The candidates the scan does not skip, each with its distance, in scan order. */
  function ScoredCandidates(cands: seq<Employee>, probe: seq<real>, root: real -> real): (r: seq<Scored>)
    ensures |r| <= |cands|
    decreases |cands|
  {
    if cands == [] then []
    else
      var n := |cands| - 1;
      var prev := ScoredCandidates(cands[..n], probe, root);
      var e := cands[n];
      match ScoreOf(e, probe, root)
      case Some(d) => prev + [Scored(e, d)]
      case None => prev
  }

  /** The scored list holds exactly the candidates the scan does not skip, each with its own
      distance: no employee without a usable descriptor can ever be matched, and a descriptor
      that fails to parse does not stop the others from being scored. */
  lemma {:induction false} ScoredCandidatesMembers(cands: seq<Employee>, probe: seq<real>, root: real -> real)
    ensures var r := ScoredCandidates(cands, probe, root);
            && (forall s :: s in r ==> s.employee in cands && ScoreOf(s.employee, probe, root) == Some(s.distance))
            && (forall e :: e in cands && ScoreOf(e, probe, root).Some? ==> Scored(e, ScoreOf(e, probe, root).value) in r)
    decreases |cands|
  {
    if cands != [] {
      var n := |cands| - 1;
      ScoredCandidatesMembers(cands[..n], probe, root);
      assert forall x :: x in cands <==> x in cands[..n] || x == cands[n];
    }
  }

  function DistancesOf(ss: seq<Scored>): (ds: seq<real>)
    ensures |ds| == |ss| && forall j :: 0 <= j < |ss| ==> ds[j] == ss[j].distance
  {
    seq(|ss|, j requires 0 <= j < |ss| => ss[j].distance)
  }

  /** One more candidate: either it is skipped, or it is appended with its distance, and
      the winner moves to it exactly when it is under 0.6 and strictly closer than the
      winner so far. */
  lemma ScanStep(cands: seq<Employee>, i: nat, probe: seq<real>, root: real -> real)
    requires i < |cands|
    ensures var S := ScoredCandidates(cands[..i], probe, root);
            var S' := ScoredCandidates(cands[..i + 1], probe, root);
            var w := Winner(S);
            match ScoreOf(cands[i], probe, root)
            case None => S' == S
            case Some(d) =>
              && S' == S + [Scored(cands[i], d)]
              && Winner(S') == if d < Threshold && (w.None? || d < w.value.distance) then Some(Scored(cands[i], d)) else w
  {
    assert cands[..i + 1][..i] == cands[..i];
    var S := ScoredCandidates(cands[..i], probe, root);
    match ScoreOf(cands[i], probe, root) {
      case None =>
      case Some(d) =>
        var S' := S + [Scored(cands[i], d)];
        assert DistancesOf(S') == DistancesOf(S) + [d];
        BestUnderSnoc(DistancesOf(S), d, Threshold);
        var b := BestUnder(DistancesOf(S), Threshold);
        if b.Some? {
          assert S'[b.value] == S[b.value];
        }
    }
  }

  /** The response of the handler. A body without an array descriptor is a 400; otherwise the
      closest scored candidate strictly under 0.6 (the first on ties) is reported with
      confidence 1 - distance, and with none under 0.6 the answer is "No matching employee found". */
  function Identify(body: ProbeField, employees: seq<Employee>, root: real -> real): (r: Response)
    ensures !body.Array? <==> r == BadRequest("Valid face descriptor is required")
    ensures body.Array? ==>
              var S := ScoredCandidates(Candidates(employees), body.values, root);
              && (r.NoMatch? <==> forall j :: 0 <= j < |S| ==> S[j].distance >= Threshold)
              && (r.NoMatch? ==> r.message == "No matching employee found")
              && (r.Matched? ==> exists i :: IsClosestUnder(DistancesOf(S), Threshold, i)
                                            && r.employee == Summary(S[i].employee)
                                            && r.confidence == 1.0 - S[i].distance)
    ensures r.Matched? ==> r.confidence > 0.4
  {
    if !body.Array? then BadRequest("Valid face descriptor is required")
    else
      WinnerIsClosestUnder(ScoredCandidates(Candidates(employees), body.values, root));
      match Winner(ScoredCandidates(Candidates(employees), body.values, root))
      case None => NoMatch("No matching employee found")
      case Some(m) => Matched(Summary(m.employee), Confidence(m.distance))
  }

  /** The winner of a scan: the scored candidate `BestUnder` picks. */
  function Winner(S: seq<Scored>): Option<Scored> {
    match BestUnder(DistancesOf(S), Threshold)
    case None => None
    case Some(i) => Some(S[i])
  }

  /** There is no winner exactly when every scored distance is at least 0.6; otherwise the
      winner is the closest one under 0.6, the first on ties. */
  lemma WinnerIsClosestUnder(S: seq<Scored>)
    ensures Winner(S).None? <==> forall j :: 0 <= j < |S| ==> S[j].distance >= Threshold
    ensures Winner(S).Some? ==> exists i :: IsClosestUnder(DistancesOf(S), Threshold, i) && Winner(S).value == S[i]
  {
    match BestUnder(DistancesOf(S), Threshold)
    case None =>
    case Some(i) => assert IsClosestUnder(DistancesOf(S), Threshold, i);
  }

  /** The `for` loop of the handler: one pass that keeps the best distance so far (starting
      at `Infinity`) among candidates strictly under 0.6. */
  method Scan(cands: seq<Employee>, faceDescriptor: seq<real>, root: real -> real) returns (bestMatch: Option<Scored>)
    ensures bestMatch == Winner(ScoredCandidates(cands, faceDescriptor, root))
  {
    bestMatch := None;
    var bestDistance := Infinity;
    ghost var S: seq<Scored> := [];
    for i := 0 to |cands|
      invariant S == ScoredCandidates(cands[..i], faceDescriptor, root)
      invariant bestMatch == Winner(S)
      invariant bestDistance == if bestMatch.None? then Infinity else At(bestMatch.value.distance)
    {
      var employee := cands[i];
      ScanStep(cands, i, faceDescriptor, root);
      var score := Score(employee, faceDescriptor, root);
      if score.Some? {
        var distance := score.value;
        if Below(distance, bestDistance) && distance < Threshold {
          bestDistance := At(distance);
          bestMatch := Some(Scored(employee, distance));
        }
        S := S + [Scored(employee, distance)];
      }
    }
    assert cands[..|cands|] == cands;
  }

  /** The handler: validation, the query, the scan, and the response. */
  method Post(body: ProbeField, employees: seq<Employee>, root: real -> real) returns (response: Response)
    ensures response == Identify(body, employees, root)
  {
    if !body.Array? {
      return BadRequest("Valid face descriptor is required");
    }
    var bestMatch := Scan(Candidates(employees), body.values, root);
    match bestMatch {
      case Some(m) => response := Matched(Summary(m.employee), Confidence(m.distance));
      case None => response := NoMatch("No matching employee found");
    }
  }

  /** Multiplying two positive reals gives a positive real. */
  lemma ProductPositive(a: real, b: real)
    requires a > 0.0 && b > 0.0
    ensures a * b > 0.0
  {
  }

  /** Squaring is strictly monotone on the non-negative reals. */
  lemma SquareMonotone(x: real, y: real)
    requires x >= 0.0 && y >= 0.0
    ensures x < y <==> x * x < y * y
  {
    if x < y {
      ProductPositive(y - x, y + x);
      assert y * y - x * x == (y - x) * (y + x);
    } else if y < x {
      ProductPositive(x - y, x + y);
      assert x * x - y * y == (x - y) * (x + y);
    }
  }

  /** With `root` a true square root, comparing distances against 0.6 decides exactly as
      comparing squared sums against 0.36: the square root never changes the winner. */
  lemma SquaredSumsDecideAlike(ss: seq<Scored>, sums: seq<real>, root: real -> real)
    requires |sums| == |ss|
    requires forall j :: 0 <= j < |ss| ==> sums[j] >= 0.0 && ss[j].distance == root(sums[j])
    requires forall x :: x >= 0.0 ==> root(x) >= 0.0 && root(x) * root(x) == x
    ensures BestUnder(DistancesOf(ss), Threshold) == BestUnder(sums, Threshold * Threshold)
  {
    var ds := DistancesOf(ss);
    forall i, j | 0 <= i < |ds| && 0 <= j < |ds| ensures ds[i] < ds[j] <==> sums[i] < sums[j] {
      SquareMonotone(ds[i], ds[j]);
    }
    forall i | 0 <= i < |ds| ensures ds[i] < Threshold <==> sums[i] < Threshold * Threshold {
      SquareMonotone(ds[i], Threshold);
    }
    BestUnderTransfer(ds, sums, Threshold, Threshold * Threshold);
  }

  /** An empty descriptor array passes validation and is at distance 0 from every parsed
      stored descriptor, so the first such candidate is reported with confidence 1. */
  lemma EmptyProbeMatchesFirstCandidate(employees: seq<Employee>, root: real -> real)
    requires root(0.0) == 0.0
    ensures var S := ScoredCandidates(Candidates(employees), [], root);
            S != [] ==> Identify(Array([]), employees, root) == Matched(Summary(S[0].employee), 1.0)
  {
    var S := ScoredCandidates(Candidates(employees), [], root);
    if S != [] {
      ScoredCandidatesMembers(Candidates(employees), [], root);
      var ds := DistancesOf(S);
      forall j | 0 <= j < |ds| ensures ds[j] == 0.0 {
        assert S[j] in S;
      }
      assert IsClosestUnder(ds, Threshold, 0);
      ClosestIsUnique(ds, Threshold, 0, BestUnder(ds, Threshold).value);
      assert Winner(S) == Some(S[0]);
    }
  }
}
