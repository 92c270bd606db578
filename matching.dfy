/** The threshold nearest-neighbour decision shared by every matcher of the system.

    Every matcher scans the registered faces in list order, computes a distance for
    each and keeps a running best. Over the list of distances `ds` the decision is:
    the index of the smallest distance strictly below the threshold, the earliest one
    on exact ties (because the running comparison is a strict `<`), or none. */
module Matching {
  import opened Common

  /** The running best distance of a scan: JavaScript's `Infinity` or a finite value. */
  datatype Bound = Infinity | At(value: real)

  /** `d < bound`, where every real number is below `Infinity`. */
  predicate Below(d: real, bound: Bound) {
    bound.Infinity? || d < bound.value
  }

  /** `ds[i]` is strictly below `t`, no entry below `t` is closer, and every earlier
      entry is strictly farther. */
  ghost predicate IsClosestUnder(ds: seq<real>, t: real, i: int) {
    && 0 <= i < |ds| && ds[i] < t
    && (forall j :: 0 <= j < |ds| && ds[j] < t ==> ds[i] <= ds[j])
    && (forall j :: 0 <= j < i ==> ds[i] < ds[j])
  }

  /** No entry is strictly below `t`. */
  ghost predicate NoneUnder(ds: seq<real>, t: real) {
    forall j :: 0 <= j < |ds| ==> ds[j] >= t
  }

  /** The decision a left-to-right scan with strict comparisons reaches. */
  function BestUnder(ds: seq<real>, t: real): (r: Option<nat>)
    ensures r.None? <==> NoneUnder(ds, t)
    ensures r.Some? ==> IsClosestUnder(ds, t, r.value)
    decreases |ds|
  {
    if ds == [] then None
    else
      var n := |ds| - 1;
      var b := BestUnder(ds[..n], t);
      assert forall j :: 0 <= j < n ==> ds[..n][j] == ds[j];
      if ds[n] < t && (b.None? || ds[n] < ds[b.value]) then Some(n) else b
  }

  /** Extending the scan by one distance: the new entry wins exactly when it is under the
      threshold and strictly closer than the best so far. */
  lemma BestUnderSnoc(ds: seq<real>, d: real, t: real)
    ensures var b := BestUnder(ds, t);
            BestUnder(ds + [d], t) == if d < t && (b.None? || d < ds[b.value]) then Some(|ds|) else b
  {
    assert (ds + [d])[..|ds|] == ds;
  }

  /** At most one index is the closest under a threshold: the decision is deterministic. */
  lemma ClosestIsUnique(ds: seq<real>, t: real, i: int, k: int)
    requires IsClosestUnder(ds, t, i) && IsClosestUnder(ds, t, k)
    ensures i == k
  {
  }

  /** The decision depends only on how distances compare with each other and with the
      threshold: any order-preserving rescaling of the distances (a square root, a
      square) with the matching threshold picks the same index. */
  lemma BestUnderTransfer(ds: seq<real>, es: seq<real>, t: real, u: real)
    requires |ds| == |es|
    requires forall i, j :: 0 <= i < |ds| && 0 <= j < |ds| ==> (ds[i] < ds[j] <==> es[i] < es[j])
    requires forall i :: 0 <= i < |ds| ==> (ds[i] < t <==> es[i] < u)
    ensures BestUnder(ds, t) == BestUnder(es, u)
  {
    var a, b := BestUnder(ds, t), BestUnder(es, u);
    if a.Some? {
      assert IsClosestUnder(es, u, a.value) by {
        forall j | 0 <= j < |es| && es[j] < u ensures es[a.value] <= es[j] {
          assert ds[a.value] <= ds[j];
        }
      }
      ClosestIsUnique(es, u, a.value, b.value);
    }
  }

  /** The first index strictly below `t`, as an early-returning scan finds it. */
  function FirstUnder(ds: seq<real>, t: real): (r: Option<nat>)
    ensures r.None? <==> NoneUnder(ds, t)
    ensures r.Some? ==> r.value < |ds| && ds[r.value] < t && forall j :: 0 <= j < r.value ==> ds[j] >= t
  {
    if ds == [] then None
    else if ds[0] < t then Some(0)
    else match FirstUnder(ds[1..], t)
      case None => None
      case Some(k) => Some(k + 1)
  }

  /** The first entry under the threshold need not be the closest one. */
  lemma FirstIsNotAlwaysClosest()
    ensures FirstUnder([0.5, 0.1], 0.6) == Some(0)
    ensures BestUnder([0.5, 0.1], 0.6) == Some(1)
  {
    var ds := [0.5, 0.1];
    assert ds[..1] == [0.5];
    assert [0.5][..0] == [];
  }

  /** The first-under and the closest-under scans agree on whether there is a match at all,
      and they agree on the index whenever only one entry is under the threshold. */
  lemma FirstAgreesWhenUnique(ds: seq<real>, t: real)
    ensures FirstUnder(ds, t).None? <==> BestUnder(ds, t).None?
    ensures (forall i, j :: 0 <= i < |ds| && 0 <= j < |ds| && ds[i] < t && ds[j] < t ==> i == j)
            ==> FirstUnder(ds, t) == BestUnder(ds, t)
  {
  }

  /** `1 - distance`: the confidence every matcher reports. */
  function Confidence(distance: real): real {
    1.0 - distance
  }
}
