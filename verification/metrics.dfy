/** The distance between two integer vectors under one of three metrics:
    Manhattan, squared Euclidean ("euclid", no square root is taken) and
    Chebyshev. As in the source, the vectors are compared pairwise up to the
    shorter length, and the pairwise terms are folded from the left. */
module Metrics {
  import opened Wrappers
  import opened Types

  datatype Metric = Manhattan | Euclid | Chebyshev

  /** The metric a configuration name selects; any other name selects none. */
  function MetricOf(name: string): Option<Metric> {
    if name == "manhattan" then Some(Manhattan)
    else if name == "euclid" then Some(Euclid)
    else if name == "chebyshev" then Some(Chebyshev)
    else None
  }

  function Abs(n: int): nat {
    if n < 0 then -n else n
  }

  function Min(a: int, b: int): int {
    if a <= b then a else b
  }

  function Larger(a: int, b: int): int {
    if a >= b then a else b
  }

  /** Number of coordinate pairs compared: two-argument `map` stops at the
      shorter vector. */
  function PairCount(p: seq<int>, q: seq<int>): nat {
    Min(|p|, |q|)
  }

  /** |p[i] - q[i]| for each compared pair. */
  function AbsDiffs(p: seq<int>, q: seq<int>): (s: seq<int>)
    ensures |s| == PairCount(p, q)
    ensures forall i :: 0 <= i < |s| ==> s[i] == Abs(p[i] - q[i])
  {
    seq(PairCount(p, q), i requires 0 <= i < PairCount(p, q) => Abs(p[i] - q[i]))
  }

  /** (p[i] - q[i])^2 for each compared pair. */
  function SqDiffs(p: seq<int>, q: seq<int>): (s: seq<int>)
    ensures |s| == PairCount(p, q)
    ensures forall i :: 0 <= i < |s| ==> s[i] == (p[i] - q[i]) * (p[i] - q[i])
  {
    seq(PairCount(p, q), i requires 0 <= i < PairCount(p, q) => (p[i] - q[i]) * (p[i] - q[i]))
  }

  /** reduce(+, s): left fold of a non-empty sequence. */
  function FoldAdd(s: seq<int>): int
    requires |s| > 0
  {
    if |s| == 1 then s[0] else FoldAdd(s[..|s| - 1]) + s[|s| - 1]
  }

  /** reduce(max, s): left fold of a non-empty sequence. */
  function FoldMax(s: seq<int>): int
    requires |s| > 0
  {
    if |s| == 1 then s[0] else Larger(FoldMax(s[..|s| - 1]), s[|s| - 1])
  }

  /** The value of a metric once the name is known and at least one pair is compared. */
  function Measure(m: Metric, p: seq<int>, q: seq<int>): int
    requires PairCount(p, q) > 0
  {
    match m
    case Manhattan => FoldAdd(AbsDiffs(p, q))
    case Euclid => FoldAdd(SqDiffs(p, q))
    case Chebyshev => FoldMax(AbsDiffs(p, q))
  }

  /** `distance(point_1, point_2, metric)`. An unknown metric name is rejected
      before anything else; a known one over zero compared pairs fails the
      way reduce() of an empty sequence does. */
  function Distance(p: seq<int>, q: seq<int>, metric: string): (r: Result<int, Error>)
    ensures r.Failure? <==> MetricOf(metric).None? || PairCount(p, q) == 0
    ensures MetricOf(metric).None? ==> r == Failure(IncorrectMetric)
  {
    match MetricOf(metric)
    case None => Failure(IncorrectMetric)
    case Some(m) =>
      if PairCount(p, q) == 0 then Failure(EmptyReduce) else Success(Measure(m, p, q))
  }

  // ---------------------------------------------------------------------------
  // Facts about the folds

  predicate AllNonNegative(s: seq<int>) {
    forall i :: 0 <= i < |s| ==> s[i] >= 0
  }

  lemma {:induction false} FoldAddNonNegative(s: seq<int>)
    requires |s| > 0 && AllNonNegative(s)
    ensures FoldAdd(s) >= 0
    ensures FoldAdd(s) == 0 <==> forall i :: 0 <= i < |s| ==> s[i] == 0
    decreases |s|
  {
    if |s| > 1 {
      var init := s[..|s| - 1];
      FoldAddNonNegative(init);
      assert forall i :: 0 <= i < |init| ==> init[i] == s[i];
    }
  }

  lemma {:induction false} FoldMaxBounds(s: seq<int>)
    requires |s| > 0
    ensures forall i :: 0 <= i < |s| ==> s[i] <= FoldMax(s)
    ensures exists i :: 0 <= i < |s| && s[i] == FoldMax(s)
    decreases |s|
  {
    if |s| > 1 {
      var init := s[..|s| - 1];
      FoldMaxBounds(init);
      assert forall i :: 0 <= i < |init| ==> init[i] == s[i];
      var k :| 0 <= k < |init| && init[k] == FoldMax(init);
      if FoldMax(init) >= s[|s| - 1] {
        assert s[k] == FoldMax(s);
      } else {
        assert s[|s| - 1] == FoldMax(s);
      }
    } else {
      assert s[0] == FoldMax(s);
    }
  }

  /** The maximum of non-negative terms never exceeds their sum, and the sum
      never exceeds the number of terms times the maximum. */
  lemma {:induction false} FoldMaxBetween(s: seq<int>)
    requires |s| > 0 && AllNonNegative(s)
    ensures FoldMax(s) <= FoldAdd(s) <= |s| * FoldMax(s)
    decreases |s|
  {
    if |s| > 1 {
      var init := s[..|s| - 1];
      assert AllNonNegative(init);
      FoldMaxBetween(init);
      FoldAddNonNegative(init);
      FoldMaxBounds(init);
      assert init[0] == s[0];
      assert FoldMax(init) >= 0;
      var last := s[|s| - 1];
      var m := FoldMax(s);
      assert FoldMax(init) <= m && last <= m;
      MulMono(|init|, FoldMax(init), m);
      MulSucc(|init|, m);
      assert FoldAdd(s) == FoldAdd(init) + last;
    }
  }

  lemma MulSucc(n: nat, m: int)
    ensures (n + 1) * m == n * m + m
  {
  }

  lemma MulMono(n: nat, a: int, b: int)
    requires a <= b
    ensures n * a <= n * b
  {
    assert n * b - n * a == n * (b - a);
  }

  /** The largest term squared is at most the sum of the squared terms, and
      that sum is at most the square of the sum of the absolute terms. */
  lemma {:induction false} SquaresBetween(p: seq<int>, q: seq<int>)
    requires PairCount(p, q) > 0
    ensures FoldMax(AbsDiffs(p, q)) * FoldMax(AbsDiffs(p, q)) <= FoldAdd(SqDiffs(p, q))
    ensures FoldAdd(SqDiffs(p, q)) <= FoldAdd(AbsDiffs(p, q)) * FoldAdd(AbsDiffs(p, q))
  {
    var a := AbsDiffs(p, q);
    var sq := SqDiffs(p, q);
    assert forall i :: 0 <= i < |a| ==> sq[i] == a[i] * a[i];
    SquareSums(a, sq);
    FoldMaxBounds(a);
    var k :| 0 <= k < |a| && a[k] == FoldMax(a);
    SquareTermBelowSum(sq, k);
  }

  lemma {:induction false} SquareSums(a: seq<int>, sq: seq<int>)
    requires |a| == |sq| > 0 && AllNonNegative(a)
    requires forall i :: 0 <= i < |a| ==> sq[i] == a[i] * a[i]
    ensures AllNonNegative(sq)
    ensures FoldAdd(sq) <= FoldAdd(a) * FoldAdd(a)
    decreases |a|
  {
    if |a| > 1 {
      var ia, isq := a[..|a| - 1], sq[..|sq| - 1];
      SquareSums(ia, isq);
      FoldAddNonNegative(ia);
      assert forall i :: 0 <= i < |ia| ==> ia[i] == a[i] && isq[i] == sq[i];
      var s, x := FoldAdd(ia), a[|a| - 1];
      assert FoldAdd(sq) == FoldAdd(isq) + x * x;
      assert FoldAdd(a) == s + x;
      SquareOfSum(s, x);
    }
  }

  lemma SquareOfSum(s: int, x: int)
    requires s >= 0 && x >= 0
    ensures s * s + x * x <= (s + x) * (s + x)
  {
    assert (s + x) * (s + x) == s * s + 2 * (s * x) + x * x;
    assert s * x >= 0;
  }

  lemma {:induction false} SquareTermBelowSum(sq: seq<int>, k: int)
    requires |sq| > 0 && AllNonNegative(sq) && 0 <= k < |sq|
    ensures sq[k] <= FoldAdd(sq)
    decreases |sq|
  {
    if |sq| > 1 {
      var init := sq[..|sq| - 1];
      FoldAddNonNegative(init);
      if k < |sq| - 1 {
        SquareTermBelowSum(init, k);
      }
    }
  }

  // ---------------------------------------------------------------------------
  // Properties of distance

  /** Every metric puts a vector at distance zero from itself. */
  lemma DistanceToSelf(p: seq<int>, metric: string)
    requires MetricOf(metric).Some? && |p| > 0
    ensures Distance(p, p, metric) == Success(0)
  {
    assert PairCount(p, p) == |p|;
    assert forall i :: 0 <= i < |p| ==> AbsDiffs(p, p)[i] == 0;
    assert forall i :: 0 <= i < |p| ==> SqDiffs(p, p)[i] == 0;
    FoldAddNonNegative(AbsDiffs(p, p));
    FoldAddNonNegative(SqDiffs(p, p));
    FoldMaxBounds(AbsDiffs(p, p));
  }

  /** Distances are never negative, and a distance is zero exactly when the
      compared coordinates agree. */
  lemma DistanceNonNegative(p: seq<int>, q: seq<int>, metric: string)
    requires Distance(p, q, metric).Success?
    ensures Distance(p, q, metric).value >= 0
    ensures Distance(p, q, metric).value == 0 <==> p[..PairCount(p, q)] == q[..PairCount(p, q)]
  {
    var n := PairCount(p, q);
    var a, sq := AbsDiffs(p, q), SqDiffs(p, q);
    assert AllNonNegative(a);
    assert forall i :: 0 <= i < n ==> (a[i] == 0 <==> p[i] == q[i]);
    assert forall i :: 0 <= i < n ==> sq[i] == a[i] * a[i];
    assert forall i :: 0 <= i < n ==> (sq[i] == 0 <==> p[i] == q[i]);
    FoldAddNonNegative(a);
    FoldAddNonNegative(sq);
    FoldMaxBounds(a);
    if p[..n] == q[..n] {
      assert forall i :: 0 <= i < n ==> p[i] == p[..n][i] == q[..n][i] == q[i];
    } else {
      var i :| 0 <= i < n && p[..n][i] != q[..n][i];
      assert p[i] != q[i];
    }
  }

  /** Every metric is symmetric in its two vectors. */
  lemma DistanceSymmetric(p: seq<int>, q: seq<int>, metric: string)
    ensures Distance(p, q, metric) == Distance(q, p, metric)
  {
    assert AbsDiffs(p, q) == AbsDiffs(q, p);
    assert forall i :: 0 <= i < PairCount(p, q) ==> (p[i] - q[i]) * (p[i] - q[i]) == (q[i] - p[i]) * (q[i] - p[i]);
    assert SqDiffs(p, q) == SqDiffs(q, p);
  }

  /** How the three metrics relate on the same vectors: Chebyshev is at most
      Manhattan, which is at most n times Chebyshev; the square of Chebyshev
      is at most "euclid", which is at most the square of Manhattan. The
      "euclid" value is thus the squared length, not the length. */
  lemma MetricsCompared(p: seq<int>, q: seq<int>, cheb: int, manh: int, eucl: int)
    requires Distance(p, q, "chebyshev") == Success(cheb)
    requires Distance(p, q, "manhattan") == Success(manh)
    requires Distance(p, q, "euclid") == Success(eucl)
    ensures cheb <= manh <= PairCount(p, q) * cheb
    ensures cheb * cheb <= eucl <= manh * manh
  {
    FoldMaxBetween(AbsDiffs(p, q));
    SquaresBetween(p, q);
  }

  /** The vectors (0, 0) and (3, 4): Manhattan 7, "euclid" 25 (the square of
      the Euclidean length 5), Chebyshev 4; an unknown name is rejected and a
      vector compared with an empty one has no pairs to fold. */
  lemma DistanceExamples()
    ensures Distance([0, 0], [3, 4], "manhattan") == Success(7)
    ensures Distance([0, 0], [3, 4], "euclid") == Success(25)
    ensures Distance([0, 0], [3, 4], "chebyshev") == Success(4)
    ensures Distance([0, 0], [3, 4], "cosine") == Failure(IncorrectMetric)
    ensures Distance([1], [], "manhattan") == Failure(EmptyReduce)
  {
    var a, s := AbsDiffs([0, 0], [3, 4]), SqDiffs([0, 0], [3, 4]);
    assert a == [3, 4] && s == [9, 16];
    assert a[..1] == [3] && s[..1] == [9];
  }
}
