/** One map/reduce pass over the input points: every point is mapped to the
    key of its nearest center, the pairs are grouped by key, and each group is
    reduced to its mean, giving the centers the job appends to the new center
    file. The runner's shuffle hands the reducer each key once with all of its
    points; the model takes the keys in ascending order (the file the reducers
    append to is sorted by id when it is read, so the order does not matter). */
module Shuffle {
  import opened Wrappers
  import opened Types
  import Mapper
  import Reducer
  import Sorting

  /** A pair the mapper yields: the key of the nearest center and the point. */
  datatype Assignment = Assignment(key: nat, point: Point)

  /** Every point can be mapped. */
  predicate AllAssigned(points: seq<Point>, centers: seq<Record>, metric: string) {
    forall i :: 0 <= i < |points| ==> Mapper.Assign(points[i], centers, metric).Success?
  }

  /** The mapper run over every input point, in input order. */
  function MapAll(points: seq<Point>, centers: seq<Record>, metric: string): (r: Result<seq<Assignment>, Error>)
    ensures r.Success? <==> AllAssigned(points, centers, metric)
    ensures r.Success? ==> |r.value| == |points|
    ensures r.Success? ==> forall i :: 0 <= i < |points| ==>
      r.value[i] == Assignment(Mapper.Assign(points[i], centers, metric).value, points[i])
  {
    if |points| == 0 then Success([])
    else
      var k :- Mapper.Assign(points[0], centers, metric);
      var rest :- MapAll(points[1..], centers, metric);
      Success([Assignment(k, points[0])] + rest)
  }

  /** The points the mapper sends to key `k`, in input order: the reference
      definition of a cluster. */
  function AssignedTo(points: seq<Point>, centers: seq<Record>, metric: string, k: int): seq<Point>
    requires AllAssigned(points, centers, metric)
  {
    if |points| == 0 then []
    else
      (if Mapper.Assign(points[0], centers, metric).value == k then [points[0]] else [])
      + AssignedTo(points[1..], centers, metric, k)
  }

  /** The points paired with key `k`, in order. */
  function PointsWithKey(pairs: seq<Assignment>, k: int): seq<Point> {
    if |pairs| == 0 then []
    else (if pairs[0].key == k then [pairs[0].point] else []) + PointsWithKey(pairs[1..], k)
  }

  predicate HasKey(pairs: seq<Assignment>, k: int) {
    exists i :: 0 <= i < |pairs| && pairs[i].key == k
  }

  lemma {:induction false} PointsWithKeyNonEmpty(pairs: seq<Assignment>, k: int)
    ensures |PointsWithKey(pairs, k)| > 0 <==> HasKey(pairs, k)
  {
    if |pairs| > 0 {
      PointsWithKeyNonEmpty(pairs[1..], k);
      if HasKey(pairs[1..], k) {
        var i :| 0 <= i < |pairs[1..]| && pairs[1..][i].key == k;
        assert pairs[i + 1].key == k;
      }
      if HasKey(pairs, k) && pairs[0].key != k {
        var i :| 0 <= i < |pairs| && pairs[i].key == k;
        assert pairs[1..][i - 1].key == k;
      }
    }
  }

  /** Grouping the mapper's pairs recovers the reference clusters. */
  lemma {:induction false} MapAllGroups(points: seq<Point>, centers: seq<Record>, metric: string, k: int)
    requires AllAssigned(points, centers, metric)
    ensures PointsWithKey(MapAll(points, centers, metric).value, k) == AssignedTo(points, centers, metric, k)
  {
    if |points| > 0 {
      assert AllAssigned(points[1..], centers, metric);
      MapAllGroups(points[1..], centers, metric, k);
      var pairs := MapAll(points, centers, metric).value;
      assert pairs[1..] == MapAll(points[1..], centers, metric).value;
    }
  }

  /** One more than the largest key, 0 when there are no pairs. */
  function KeyBound(pairs: seq<Assignment>): (b: nat)
    ensures forall i :: 0 <= i < |pairs| ==> pairs[i].key < b
  {
    if |pairs| == 0 then 0
    else
      var rest := KeyBound(pairs[1..]);
      assert forall i :: 1 <= i < |pairs| ==> pairs[i] == pairs[1..][i - 1];
      if pairs[0].key + 1 > rest then pairs[0].key + 1 else rest
  }

  /** The points the reducer receives for one key. */
  datatype Group = Group(key: nat, points: seq<Point>)

  predicate IsGroupOf(pairs: seq<Assignment>, g: Group) {
    g.points == PointsWithKey(pairs, g.key) && |g.points| > 0
  }

  /** The groups for the keys `k` up to `bound`, ascending. */
  function GroupsFrom(pairs: seq<Assignment>, k: nat, bound: nat): (gs: seq<Group>)
    ensures forall i :: 0 <= i < |gs| ==> k <= gs[i].key < bound && IsGroupOf(pairs, gs[i])
    ensures forall i, j :: 0 <= i < j < |gs| ==> gs[i].key < gs[j].key
    decreases bound - k
  {
    if k >= bound then []
    else
      var here := PointsWithKey(pairs, k);
      var rest := GroupsFrom(pairs, k + 1, bound);
      if |here| > 0 then
        var gs := [Group(k, here)] + rest;
        assert forall i :: 1 <= i < |gs| ==> gs[i] == rest[i - 1];
        gs
      else rest
  }

  /** Every key between `k` and `bound` that has points gets a group. */
  lemma {:induction false} GroupsFromCovers(pairs: seq<Assignment>, k: nat, bound: nat, j: nat)
    requires k <= j < bound && |PointsWithKey(pairs, j)| > 0
    ensures exists i :: 0 <= i < |GroupsFrom(pairs, k, bound)| && GroupsFrom(pairs, k, bound)[i].key == j
    decreases bound - k
  {
    var gs := GroupsFrom(pairs, k, bound);
    if j == k {
      assert gs[0].key == j;
    } else {
      GroupsFromCovers(pairs, k + 1, bound, j);
      var rest := GroupsFrom(pairs, k + 1, bound);
      var i :| 0 <= i < |rest| && rest[i].key == j;
      if |PointsWithKey(pairs, k)| > 0 {
        assert gs[i + 1] == rest[i];
      } else {
        assert gs[i] == rest[i];
      }
    }
  }

  /** The runner's shuffle: one group per key the mapper produced, keys
      ascending, each group holding exactly the points sent to its key. */
  function GroupByKey(pairs: seq<Assignment>): (gs: seq<Group>)
    ensures forall i :: 0 <= i < |gs| ==> IsGroupOf(pairs, gs[i])
    ensures forall i, j :: 0 <= i < j < |gs| ==> gs[i].key < gs[j].key
    ensures forall k: nat :: (exists i :: 0 <= i < |gs| && gs[i].key == k) <==> HasKey(pairs, k)
  {
    var gs := GroupsFrom(pairs, 0, KeyBound(pairs));
    forall k: nat
      ensures (exists i :: 0 <= i < |gs| && gs[i].key == k) <==> HasKey(pairs, k)
    {
      PointsWithKeyNonEmpty(pairs, k);
      if HasKey(pairs, k) {
        var i :| 0 <= i < |pairs| && pairs[i].key == k;
        assert k < KeyBound(pairs);
        GroupsFromCovers(pairs, 0, KeyBound(pairs), k);
      }
    }
    gs
  }

  /** `reducer`: the group's key with the mean of its points. */
  function Reduce(g: Group): Center
    requires |g.points| > 0
  {
    var m := Reducer.Mean(g.points);
    Center(g.key, m.x, m.y)
  }

  function ReduceAll(gs: seq<Group>): (cs: seq<Center>)
    requires forall i :: 0 <= i < |gs| ==> |gs[i].points| > 0
    ensures |cs| == |gs|
    ensures forall i :: 0 <= i < |gs| ==> cs[i] == Reduce(gs[i])
  {
    seq(|gs|, i requires 0 <= i < |gs| => Reduce(gs[i]))
  }

  /** The centers one run of the job appends to the new center file, in the
      order the model's reducers run, or the error a mapper raises. */
  function NewCenters(points: seq<Point>, centers: seq<Record>, metric: string): (r: Result<seq<Center>, Error>)
    ensures r.Success? <==> AllAssigned(points, centers, metric)
  {
    var pairs :- MapAll(points, centers, metric);
    Success(ReduceAll(GroupByKey(pairs)))
  }

  // ---------------------------------------------------------------------------
  // What a pass produces

  /** Ids come out strictly ascending, so they are distinct and already in
      the order reading the file back sorts them into. */
  lemma NewCentersAscending(points: seq<Point>, centers: seq<Record>, metric: string)
    requires NewCenters(points, centers, metric).Success?
    ensures var cs := NewCenters(points, centers, metric).value;
      forall i, j :: 0 <= i < j < |cs| ==> cs[i].id < cs[j].id
    ensures Sorting.DistinctIds(Records(NewCenters(points, centers, metric).value))
    ensures Sorting.SortedById(Records(NewCenters(points, centers, metric).value))
  {
  }

  lemma KeyGivesCenter(points: seq<Point>, centers: seq<Record>, metric: string, j: nat)
    requires NewCenters(points, centers, metric).Success?
    requires j < |points|
    ensures var cs := NewCenters(points, centers, metric).value;
      exists i :: 0 <= i < |cs| && cs[i].id == Mapper.Assign(points[j], centers, metric).value
  {
    var pairs := MapAll(points, centers, metric).value;
    var gs := GroupByKey(pairs);
    var k := pairs[j].key;
    assert HasKey(pairs, k);
    var i :| 0 <= i < |gs| && gs[i].key == k;
    assert NewCenters(points, centers, metric).value[i].id == k;
  }

  lemma CenterHasKey(points: seq<Point>, centers: seq<Record>, metric: string, i: nat)
    requires NewCenters(points, centers, metric).Success?
    requires i < |NewCenters(points, centers, metric).value|
    ensures exists j :: (0 <= j < |points| &&
      Mapper.Assign(points[j], centers, metric).value == NewCenters(points, centers, metric).value[i].id)
  {
    var pairs := MapAll(points, centers, metric).value;
    var gs := GroupByKey(pairs);
    var k := gs[i].key;
    assert NewCenters(points, centers, metric).value[i].id == k;
    assert IsGroupOf(pairs, gs[i]);
    PointsWithKeyNonEmpty(pairs, k);
    var j :| 0 <= j < |pairs| && pairs[j].key == k;
    assert Mapper.Assign(points[j], centers, metric).value == k;
  }

  /** A center is produced for key `k` exactly when some point is nearest to
      the center at position `k`: a cluster no point chooses disappears. */
  lemma NewCentersIds(points: seq<Point>, centers: seq<Record>, metric: string, k: nat)
    requires NewCenters(points, centers, metric).Success?
    ensures var cs := NewCenters(points, centers, metric).value;
      (exists i :: 0 <= i < |cs| && cs[i].id == k) <==>
      (exists j :: 0 <= j < |points| && Mapper.Assign(points[j], centers, metric).value == k)
  {
    var cs := NewCenters(points, centers, metric).value;
    if exists j :: 0 <= j < |points| && Mapper.Assign(points[j], centers, metric).value == k {
      var j :| 0 <= j < |points| && Mapper.Assign(points[j], centers, metric).value == k;
      KeyGivesCenter(points, centers, metric, j);
    }
    if exists i :: 0 <= i < |cs| && cs[i].id == k {
      var i :| 0 <= i < |cs| && cs[i].id == k;
      CenterHasKey(points, centers, metric, i);
    }
  }

  /** Each produced center is the mean of exactly the points assigned to it. */
  lemma NewCentersAreMeans(points: seq<Point>, centers: seq<Record>, metric: string)
    requires NewCenters(points, centers, metric).Success?
    ensures var cs := NewCenters(points, centers, metric).value;
      forall i :: 0 <= i < |cs| ==>
        var cluster := AssignedTo(points, centers, metric, cs[i].id);
        |cluster| > 0 && cs[i] == Center(cs[i].id, Reducer.Mean(cluster).x, Reducer.Mean(cluster).y)
  {
    var pairs := MapAll(points, centers, metric).value;
    var gs := GroupByKey(pairs);
    var cs := NewCenters(points, centers, metric).value;
    forall i | 0 <= i < |cs|
      ensures var cluster := AssignedTo(points, centers, metric, cs[i].id);
        |cluster| > 0 && cs[i] == Center(cs[i].id, Reducer.Mean(cluster).x, Reducer.Mean(cluster).y)
    {
      MapAllGroups(points, centers, metric, gs[i].key);
    }
  }

  /** Ids name positions of the center list, or are 0 when it is empty. */
  lemma NewCentersInRange(points: seq<Point>, centers: seq<Record>, metric: string)
    requires NewCenters(points, centers, metric).Success?
    ensures var cs := NewCenters(points, centers, metric).value;
      forall i :: 0 <= i < |cs| ==> 0 <= cs[i].id < if |centers| == 0 then 1 else |centers|
  {
    var cs := NewCenters(points, centers, metric).value;
    forall i | 0 <= i < |cs|
      ensures 0 <= cs[i].id < if |centers| == 0 then 1 else |centers|
    {
      NewCentersIds(points, centers, metric, cs[i].id);
      var j :| 0 <= j < |points| && Mapper.Assign(points[j], centers, metric).value == cs[i].id;
      Mapper.AssignInRange(points[j], centers, metric);
    }
  }

  lemma {:induction false} AscendingSpan(cs: seq<Center>, i: nat, j: nat)
    requires forall a, b :: 0 <= a < b < |cs| ==> cs[a].id < cs[b].id
    requires i <= j < |cs|
    ensures cs[i].id + (j - i) <= cs[j].id
    decreases j - i
  {
    if i < j {
      AscendingSpan(cs, i, j - 1);
    }
  }

  /** A pass over at least one point yields at least one center, and never
      more centers than the list it started from had positions (one, when it
      was empty): clusters can vanish but never multiply. */
  lemma NewCentersCount(points: seq<Point>, centers: seq<Record>, metric: string)
    requires NewCenters(points, centers, metric).Success?
    ensures var cs := NewCenters(points, centers, metric).value;
      (|cs| > 0 <==> |points| > 0) && |cs| <= if |centers| == 0 then 1 else |centers|
  {
    var cs := NewCenters(points, centers, metric).value;
    if |points| > 0 {
      NewCentersIds(points, centers, metric, Mapper.Assign(points[0], centers, metric).value);
    }
    if |cs| > 0 {
      NewCentersInRange(points, centers, metric);
      NewCentersIds(points, centers, metric, cs[0].id as nat);
      NewCentersAscending(points, centers, metric);
      AscendingSpan(cs, 0, |cs| - 1);
    }
  }

  /** When a pass yields as many centers as the list had positions, every
      id equals its position: the ids are exactly 0 up to k - 1. */
  lemma NewCentersDense(points: seq<Point>, centers: seq<Record>, metric: string)
    requires NewCenters(points, centers, metric).Success?
    requires |NewCenters(points, centers, metric).value| == |centers|
    ensures var cs := NewCenters(points, centers, metric).value;
      forall i :: 0 <= i < |cs| ==> cs[i].id == i
  {
    var cs := NewCenters(points, centers, metric).value;
    NewCentersAscending(points, centers, metric);
    NewCentersInRange(points, centers, metric);
    forall i | 0 <= i < |cs|
      ensures cs[i].id == i
    {
      AscendingSpan(cs, 0, i);
      AscendingSpan(cs, i, |cs| - 1);
    }
  }
}
