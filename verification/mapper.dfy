/** The map stage: each point goes to the nearest center of the current
    center list. The scan starts from a sentinel minimum of 10^9 and takes a
    center only when it is strictly closer, so the first of several equally
    near centers wins. The key emitted is the center's position in the list
    (which is sorted by id), not the id stored in its record.

    The job computes each distance inside the scan and stops at the first
    one that raises. The scan's own steps cannot fail, so the model computes
    the distances first, stopping at the same center with the same error,
    and then scans them. */
module Mapper {
  import opened Wrappers
  import opened Types
  import Metrics

  const StartMinDistance: int := 1000000000

  /** `centers[i][1:3]`: the coordinates after the id, at most two of them. */
  function CenterCoords(r: Record): seq<int> {
    if |r.coords| <= 2 then r.coords else r.coords[..2]
  }

  function PointCoords(p: Point): seq<int> {
    [p.x, p.y]
  }

  /** The distance from point `p` to center record `r`. */
  function CenterDistance(p: Point, r: Record, metric: string): Result<int, Error> {
    Metrics.Distance(PointCoords(p), CenterCoords(r), metric)
  }

  /** Every center's distance from `p` can be computed. */
  predicate Measurable(p: Point, centers: seq<Record>, metric: string) {
    forall j :: 0 <= j < |centers| ==> CenterDistance(p, centers[j], metric).Success?
  }

  /** The distances from `p` to the centers in list order, or the error of
      the first center whose distance cannot be computed. */
  function Distances(p: Point, centers: seq<Record>, metric: string): (r: Result<seq<int>, Error>)
    ensures r.Success? <==> Measurable(p, centers, metric)
    ensures r.Success? ==> |r.value| == |centers|
    ensures r.Success? ==> forall j :: 0 <= j < |centers| ==> CenterDistance(p, centers[j], metric) == Success(r.value[j])
  {
    if |centers| == 0 then Success([])
    else
      assert forall j :: 1 <= j < |centers| ==> centers[j] == centers[1..][j - 1];
      var d :- CenterDistance(p, centers[0], metric);
      var rest :- Distances(p, centers[1..], metric);
      Success([d] + rest)
  }

  /** A failure is the error of the first center whose distance cannot be
      computed; every center before it can be measured. */
  lemma {:induction false} DistancesFailAtFirst(p: Point, centers: seq<Record>, metric: string)
    requires Distances(p, centers, metric).Failure?
    ensures exists j :: 0 <= j < |centers| && Measurable(p, centers[..j], metric)
                       && CenterDistance(p, centers[j], metric) == Failure(Distances(p, centers, metric).error)
  {
    if CenterDistance(p, centers[0], metric).Failure? {
      assert Measurable(p, centers[..0], metric);
    } else {
      DistancesFailAtFirst(p, centers[1..], metric);
      var j :| 0 <= j < |centers[1..]| && Measurable(p, centers[1..][..j], metric)
               && CenterDistance(p, centers[1..][j], metric) == Failure(Distances(p, centers[1..], metric).error);
      assert centers[..j + 1] == [centers[0]] + centers[1..][..j];
      assert Measurable(p, centers[..j + 1], metric);
      assert centers[j + 1] == centers[1..][j];
    }
  }

  /** The nearest-center loop over the distances from position `i` on, with
      the best distance and position so far. */
  function Scan(ds: seq<int>, i: nat, minDistance: int, nearest: nat): nat
    requires i <= |ds|
    decreases |ds| - i
  {
    if i == |ds| then nearest
    else if ds[i] < minDistance then Scan(ds, i + 1, ds[i], i)
    else Scan(ds, i + 1, minDistance, nearest)
  }

  /** `mapper`: the key the point is emitted under. */
  function Assign(p: Point, centers: seq<Record>, metric: string): Result<nat, Error> {
    var ds :- Distances(p, centers, metric);
    Success(Scan(ds, 0, StartMinDistance, 0))
  }

  // ---------------------------------------------------------------------------
  // What the scan computes

  /** Position `i` is the nearest center for distances `ds`: when some
      distance is below the sentinel, `i` is a position of least distance and
      no earlier position has that distance; otherwise (in particular when
      there are no centers) `i` is 0. */
  predicate IsNearest(ds: seq<int>, i: nat) {
    if exists j :: 0 <= j < |ds| && ds[j] < StartMinDistance then
      && i < |ds|
      && (forall j :: 0 <= j < |ds| ==> ds[i] <= ds[j])
      && (forall j :: 0 <= j < i ==> ds[i] < ds[j])
    else
      i == 0
  }

  /** What holds of the scan's state after the first `i` distances. */
  predicate ScanInvariant(ds: seq<int>, i: nat, minDistance: int, nearest: nat)
    requires i <= |ds|
  {
    || (&& minDistance == StartMinDistance
        && nearest == 0
        && forall j :: 0 <= j < i ==> ds[j] >= StartMinDistance)
    || (&& minDistance < StartMinDistance
        && nearest < i
        && minDistance == ds[nearest]
        && (forall j :: 0 <= j < i ==> minDistance <= ds[j])
        && (forall j :: 0 <= j < nearest ==> minDistance < ds[j]))
  }

  lemma ScanInvariantAtEnd(ds: seq<int>, minDistance: int, nearest: nat)
    requires ScanInvariant(ds, |ds|, minDistance, nearest)
    ensures IsNearest(ds, nearest)
  {
    if exists j :: 0 <= j < |ds| && ds[j] < StartMinDistance {
      var j :| 0 <= j < |ds| && ds[j] < StartMinDistance;
      assert minDistance < StartMinDistance;
    }
  }

  lemma ScanStep(ds: seq<int>, i: nat, minDistance: int, nearest: nat)
    requires i < |ds|
    requires ScanInvariant(ds, i, minDistance, nearest)
    ensures ds[i] < minDistance ==> ScanInvariant(ds, i + 1, ds[i], i)
    ensures ds[i] >= minDistance ==> ScanInvariant(ds, i + 1, minDistance, nearest)
  {
  }

  lemma {:induction false} ScanFindsNearest(ds: seq<int>, i: nat, minDistance: int, nearest: nat)
    requires i <= |ds|
    requires ScanInvariant(ds, i, minDistance, nearest)
    ensures IsNearest(ds, Scan(ds, i, minDistance, nearest))
    decreases |ds| - i
  {
    if i == |ds| {
      ScanInvariantAtEnd(ds, minDistance, nearest);
    } else {
      ScanStep(ds, i, minDistance, nearest);
      if ds[i] < minDistance {
        ScanFindsNearest(ds, i + 1, ds[i], i);
      } else {
        ScanFindsNearest(ds, i + 1, minDistance, nearest);
      }
    }
  }

  /** When every distance can be computed, the mapper's key is the nearest
      center's position. */
  lemma AssignFindsNearest(p: Point, centers: seq<Record>, metric: string)
    requires Measurable(p, centers, metric)
    ensures Assign(p, centers, metric).Success?
    ensures IsNearest(Distances(p, centers, metric).value, Assign(p, centers, metric).value)
  {
    ScanFindsNearest(Distances(p, centers, metric).value, 0, StartMinDistance, 0);
  }

  /** The mapper fails exactly when some center's distance cannot be
      computed: a metric name that is not one of the three (once there is at
      least one center), or a center with no coordinate after its id. The
      error is the one the first such center raises. */
  lemma AssignFailsIff(p: Point, centers: seq<Record>, metric: string)
    ensures Assign(p, centers, metric).Success? <==> Measurable(p, centers, metric)
    ensures Measurable(p, centers, metric) <==>
      |centers| == 0 ||
      (Metrics.MetricOf(metric).Some? && forall j :: 0 <= j < |centers| ==> |centers[j].coords| > 0)
    ensures Assign(p, centers, metric).Failure? ==>
      exists j :: 0 <= j < |centers| && Measurable(p, centers[..j], metric)
                 && CenterDistance(p, centers[j], metric) == Failure(Assign(p, centers, metric).error)
  {
    if |centers| > 0 && Metrics.MetricOf(metric).Some? && forall j :: 0 <= j < |centers| ==> |centers[j].coords| > 0 {
      forall j | 0 <= j < |centers|
        ensures CenterDistance(p, centers[j], metric).Success?
      {
        assert Metrics.PairCount(PointCoords(p), CenterCoords(centers[j])) > 0;
      }
    }
    if |centers| > 0 && Metrics.MetricOf(metric).None? {
      assert CenterDistance(p, centers[0], metric).Failure?;
    }
    if |centers| > 0 && exists j :: 0 <= j < |centers| && |centers[j].coords| == 0 {
      var j :| 0 <= j < |centers| && |centers[j].coords| == 0;
      assert CenterDistance(p, centers[j], metric).Failure?;
    }
    if Assign(p, centers, metric).Failure? {
      DistancesFailAtFirst(p, centers, metric);
    }
  }

  /** There is only one nearest position: the property determines the key. */
  lemma IsNearestUnique(ds: seq<int>, i: nat, k: nat)
    requires IsNearest(ds, i) && IsNearest(ds, k)
    ensures i == k
  {
  }

  /** The key always names a position of the list, or is 0 when the list is
      empty. */
  lemma AssignInRange(p: Point, centers: seq<Record>, metric: string)
    requires Assign(p, centers, metric).Success?
    ensures Assign(p, centers, metric).value < if |centers| == 0 then 1 else |centers|
  {
    AssignFindsNearest(p, centers, metric);
  }
}
