/** The reduce stage: the new center of a cluster is the mean of the points
    assigned to it, each coordinate `int(round(sum / count))`. Python's
    round() sends halves to the even neighbour; here the quotient is exact. */
module Reducer {
  import opened Types
  import Metrics

  /** The integer nearest to n / d, the even one of the two on a tie. */
  function RoundHalfEven(n: int, d: int): (r: int)
    requires d > 0
    ensures 2 * Metrics.Abs(n - d * r) <= d
    ensures 2 * Metrics.Abs(n - d * r) == d ==> r % 2 == 0
  {
    var q, rem := n / d, n % d;
    assert n == d * q + rem;
    assert d * (q + 1) == d * q + d;
    if 2 * rem < d then q
    else if 2 * rem > d then q + 1
    else if q % 2 == 0 then q
    else q + 1
  }

  /** Multiples of d > 0 are at least d apart, and at least 2d when the
      factors are two or more apart. */
  lemma {:induction false} MulGap(d: int, a: int, b: int)
    requires d > 0 && a < b
    ensures d * a + d <= d * b
    ensures a + 1 < b ==> d * a + 2 * d <= d * b
    decreases b - a
  {
    assert d * b == d * (b - 1) + d;
    if a + 1 < b {
      MulGap(d, a, b - 1);
    }
  }

  /** No other integer is as near to n / d under the same tie rule: the two
      properties above define the rounding. */
  lemma RoundHalfEvenUnique(n: int, d: int, r: int)
    requires d > 0
    requires 2 * Metrics.Abs(n - d * r) <= d
    requires 2 * Metrics.Abs(n - d * r) == d ==> r % 2 == 0
    ensures r == RoundHalfEven(n, d)
  {
    var s := RoundHalfEven(n, d);
    if r < s {
      MulGap(d, r, s);
      assert false;
    } else if s < r {
      MulGap(d, s, r);
      assert false;
    }
  }

  /** Rounding n / d stays between any two integer bounds of n / d. */
  lemma RoundBetween(n: int, d: int, lo: int, hi: int)
    requires d > 0
    requires d * lo <= n <= d * hi
    ensures lo <= RoundHalfEven(n, d) <= hi
  {
    var r := RoundHalfEven(n, d);
    if r < lo {
      MulGap(d, r, lo);
    }
    if r > hi {
      MulGap(d, hi, r);
    }
  }

  function SumX(pts: seq<Point>): int {
    if |pts| == 0 then 0 else pts[0].x + SumX(pts[1..])
  }

  function SumY(pts: seq<Point>): int {
    if |pts| == 0 then 0 else pts[0].y + SumY(pts[1..])
  }

  /** `reducer`'s mean point of a non-empty group. */
  function Mean(pts: seq<Point>): Point
    requires |pts| > 0
  {
    Point(RoundHalfEven(SumX(pts), |pts|), RoundHalfEven(SumY(pts), |pts|))
  }

  /** The group lies in the box [xlo, xhi] x [ylo, yhi]. */
  predicate InBox(pts: seq<Point>, xlo: int, xhi: int, ylo: int, yhi: int) {
    forall i :: 0 <= i < |pts| ==> xlo <= pts[i].x <= xhi && ylo <= pts[i].y <= yhi
  }

  lemma {:induction false} SumsInBox(pts: seq<Point>, xlo: int, xhi: int, ylo: int, yhi: int)
    requires InBox(pts, xlo, xhi, ylo, yhi)
    ensures |pts| * xlo <= SumX(pts) <= |pts| * xhi
    ensures |pts| * ylo <= SumY(pts) <= |pts| * yhi
    decreases |pts|
  {
    if |pts| > 0 {
      var init := pts[1..];
      assert InBox(init, xlo, xhi, ylo, yhi);
      SumsInBox(init, xlo, xhi, ylo, yhi);
      assert |pts| * xlo == |init| * xlo + xlo;
      assert |pts| * xhi == |init| * xhi + xhi;
      assert |pts| * ylo == |init| * ylo + ylo;
      assert |pts| * yhi == |init| * yhi + yhi;
    }
  }

  /** Each coordinate of the mean lies between the least and the greatest
      value of that coordinate in the group. */
  lemma MeanInBox(pts: seq<Point>, xlo: int, xhi: int, ylo: int, yhi: int)
    requires |pts| > 0
    requires InBox(pts, xlo, xhi, ylo, yhi)
    ensures xlo <= Mean(pts).x <= xhi
    ensures ylo <= Mean(pts).y <= yhi
  {
    SumsInBox(pts, xlo, xhi, ylo, yhi);
    RoundBetween(SumX(pts), |pts|, xlo, xhi);
    RoundBetween(SumY(pts), |pts|, ylo, yhi);
  }

  /** A group of copies of one point has that point as its mean. */
  lemma MeanOfCopies(pts: seq<Point>, p: Point)
    requires |pts| > 0
    requires forall i :: 0 <= i < |pts| ==> pts[i] == p
    ensures Mean(pts) == p
  {
    MeanInBox(pts, p.x, p.x, p.y, p.y);
  }

  /** The coordinate sums do not depend on the order of the group. */
  lemma {:induction false} SumsOfPermutation(a: seq<Point>, b: seq<Point>)
    requires multiset(a) == multiset(b)
    ensures SumX(a) == SumX(b) && SumY(a) == SumY(b)
    decreases |a|
  {
    if |a| > 0 {
      var first := a[0];
      assert first in multiset(b);
      var k :| 0 <= k < |b| && b[k] == first;
      var b' := b[..k] + b[k + 1..];
      assert a == [first] + a[1..];
      assert b == b[..k] + [first] + b[k + 1..];
      assert multiset(a) == multiset{first} + multiset(a[1..]);
      assert multiset(b) == multiset(b[..k]) + multiset{first} + multiset(b[k + 1..]);
      assert multiset(b') == multiset(b[..k]) + multiset(b[k + 1..]);
      assert multiset(a[1..]) == multiset(a) - multiset{first};
      assert multiset(b') == multiset(b) - multiset{first};
      SumsOfPermutation(a[1..], b');
      SumsSplit(b[..k], first, b[k + 1..]);
    } else {
      assert |b| == |multiset(b)| == 0;
    }
  }

  lemma {:induction false} SumsSplit(u: seq<Point>, m: Point, v: seq<Point>)
    ensures SumX(u + [m] + v) == SumX(u + v) + m.x
    ensures SumY(u + [m] + v) == SumY(u + v) + m.y
    decreases |u|
  {
    if |u| == 0 {
      assert u + [m] + v == [m] + v;
      assert ([m] + v)[1..] == v;
      assert u + v == v;
    } else {
      SumsSplit(u[1..], m, v);
      assert (u + [m] + v)[1..] == u[1..] + [m] + v;
      assert (u + v)[1..] == u[1..] + v;
    }
  }

  /** The mean does not depend on the order in which the group arrives. */
  lemma MeanOfPermutation(a: seq<Point>, b: seq<Point>)
    requires |a| > 0
    requires multiset(a) == multiset(b)
    ensures |b| == |a| && Mean(a) == Mean(b)
  {
    assert |a| == |multiset(a)| == |multiset(b)| == |b|;
    SumsOfPermutation(a, b);
  }

  /** The worked example: (0,0), (2,2), (4,4) have mean (2,2). */
  lemma MeanExample()
    ensures Mean([Point(0, 0), Point(2, 2), Point(4, 4)]) == Point(2, 2)
  {
    var pts := [Point(0, 0), Point(2, 2), Point(4, 4)];
    assert pts[1..] == [Point(2, 2), Point(4, 4)];
    assert pts[1..][1..] == [Point(4, 4)];
    assert pts[1..][1..][1..] == [];
    assert SumX(pts) == 6 && SumY(pts) == 6;
  }

  /** Halves go to the even neighbour: 1/2 rounds to 0 and 3/2 to 2. */
  lemma TiesToEven()
    ensures RoundHalfEven(1, 2) == 0
    ensures RoundHalfEven(3, 2) == 2
    ensures RoundHalfEven(-1, 2) == 0
  {
  }
}
