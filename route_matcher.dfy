/**
 * Route divergence detection, as src/routeMatcher.js implements it: sample evenly
 * spaced points of the candidate path B, find for each the distance to the nearest
 * point of the reference path A, and report the average and the maximum of those
 * distances and whether either exceeds its threshold.
 *
 * The great-circle distance is a parameter `dist`; the lemmas that need it assume only
 * that it is never negative and is zero from a point to itself.
 */
module RouteMatcher {
  import opened Wrappers
  import Polyline

  type Point = Polyline.Point

  /** A distance in meters between two points. */
  type Distance = (Point, Point) -> real

  const DefaultSampleCount := 12
  const DefaultAvgThreshold := 500.0
  const DefaultMaxThreshold := 1000.0

  /** The `options` object of compareRoutes; a missing field takes its default. */
  datatype Options = Options(sampleCount: Option<nat>, avgThreshold: Option<real>, maxThreshold: Option<real>)

  /** `{}`: what the poller passes. */
  const NoOptions := Options(None, None, None)

  function SampleCount(o: Options): nat { o.sampleCount.GetOr(DefaultSampleCount) }
  function AvgThreshold(o: Options): real { o.avgThreshold.GetOr(DefaultAvgThreshold) }
  function MaxThreshold(o: Options): real { o.maxThreshold.GetOr(DefaultMaxThreshold) }

  /** The object compareRoutes returns when it can compare the two paths. */
  datatype Report = Report(avgDeviationMeters: int, maxDeviationMeters: int, isDifferentRoute: bool)

  /** The average and maximum deviation before rounding. */
  datatype Deviation = Deviation(avg: real, max: real)

  /** `minDist`: Infinity until the first distance is seen. */
  datatype Extended = Finite(value: real) | Infinity {
    /** `d < minDist`: every number is below Infinity. */
    predicate Above(d: real) {
      Infinity? || d < value
    }
  }

  ghost predicate NonNegative(dist: Distance) {
    forall p: Point, q: Point :: 0.0 <= dist(p, q)
  }

  ghost predicate ZeroOnSelf(dist: Distance) {
    forall p: Point :: dist(p, p) == 0.0
  }

  // ---------------------------------------------------------------------------
  // Arithmetic on the sampling step
  // ---------------------------------------------------------------------------

  lemma MulLeft(a: nat, b: nat, c: nat)
    requires a <= b
    ensures a * c <= b * c
  {
  }

  /** Integer division is exact on `d * q + r` with `r < d`. */
  lemma DivExact(x: nat, d: nat, q: nat, r: nat)
    requires 0 < d && r < d && x == d * q + r
    ensures x / d == q
  {
    var q': nat := x / d;
    if q' < q {
      MulLeft(q' + 1, q, d);
    } else if q < q' {
      MulLeft(q + 1, q', d);
    }
  }

  /** Dividing numbers at least `d` apart gives different quotients. */
  lemma DivApart(x: nat, y: nat, d: nat)
    requires 0 < d && x + d <= y
    ensures x / d < y / d
  {
  }

  /** A quotient below the bound: `x < d * q` gives `x / d < q`. */
  lemma DivBelow(x: nat, d: nat, q: nat)
    requires 0 < d && x < d * q
    ensures x / d < q
  {
  }

  // ---------------------------------------------------------------------------
  // samplePoints
  // ---------------------------------------------------------------------------

  /** The numerator of `i * step + 1/2` over the denominator `2 * (n - 1)`. */
  function SampleNumerator(i: nat, len: nat, n: nat): nat
    requires 1 <= len && 1 <= n
  {
    2 * i * (len - 1) + (n - 1)
  }

  lemma SampleNumeratorBelow(i: nat, len: nat, n: nat)
    requires 2 <= n && i < n && 1 <= len
    ensures SampleNumerator(i, len, n) / (2 * (n - 1)) < len
  {
    MulLeft(i, n - 1, len - 1);
    assert SampleNumerator(i, len, n) < 2 * (n - 1) * len;
    DivBelow(SampleNumerator(i, len, n), 2 * (n - 1), len);
  }

  /**
   * `Math.round(i * step)` with `step = (len - 1) / (n - 1)`, computed exactly:
   * the quotient rounded half up.
   */
  function SampleIndex(i: nat, len: nat, n: nat): (k: nat)
    requires 2 <= n && i < n && 1 <= len
    ensures k < len
  {
    SampleNumeratorBelow(i, len, n);
    SampleNumerator(i, len, n) / (2 * (n - 1))
  }

  /** The result of samplePoints. */
  function Sample<T>(points: seq<T>, n: nat): (r: seq<T>)
    requires 2 <= n
    ensures |r| == if |points| <= n then |points| else n
  {
    if |points| <= n then points
    else seq(n, i requires 0 <= i < n => points[SampleIndex(i, |points|, n)])
  }

  /** samplePoints: a path no longer than `n` is returned as it is. */
  method SamplePoints<T>(points: seq<T>, n: nat) returns (result: seq<T>)
    requires 2 <= n
    ensures result == Sample(points, n)
  {
    if |points| <= n {
      return points;
    }
    result := [];
    for i := 0 to n
      invariant |result| == i
      invariant forall k | 0 <= k < i :: result[k] == points[SampleIndex(k, |points|, n)]
    {
      result := result + [points[SampleIndex(i, |points|, n)]];
    }
  }

  /**
   * Sampling a longer path picks indices that start at 0, end at the last point and
   * strictly increase, so no point is taken twice.
   */
  lemma SampleIndices(len: nat, n: nat)
    requires 2 <= n < len
    ensures SampleIndex(0, len, n) == 0
    ensures SampleIndex(n - 1, len, n) == len - 1
    ensures forall i, j | 0 <= i < j < n :: SampleIndex(i, len, n) < SampleIndex(j, len, n)
  {
    var d := 2 * (n - 1);
    DivExact(SampleNumerator(0, len, n), d, 0, n - 1);
    assert SampleNumerator(n - 1, len, n) == d * (len - 1) + (n - 1);
    DivExact(SampleNumerator(n - 1, len, n), d, len - 1, n - 1);
    forall i, j | 0 <= i < j < n
      ensures SampleIndex(i, len, n) < SampleIndex(j, len, n)
    {
      MulLeft(1, j - i, len - 1);
      assert SampleNumerator(j, len, n) == SampleNumerator(i, len, n) + 2 * ((j - i) * (len - 1));
      DivApart(SampleNumerator(i, len, n), SampleNumerator(j, len, n), d);
    }
  }

  /** A path of at most `n` points is returned as it is; every sampled point is a point of the path. */
  lemma SampleMembers<T>(points: seq<T>, n: nat)
    requires 2 <= n
    ensures |points| <= n ==> Sample(points, n) == points
    ensures forall k | 0 <= k < |Sample(points, n)| :: Sample(points, n)[k] in points
  {
  }

  // ---------------------------------------------------------------------------
  // compareRoutes (specification)
  // ---------------------------------------------------------------------------

  /** `minDist` once the inner loop has visited every point of `a`. */
  function Nearest(a: seq<Point>, q: Point, dist: Distance): (m: Extended)
    ensures m.Finite? <==> a != []
    decreases |a|
  {
    if a == [] then Infinity
    else
      var m := Nearest(a[..|a| - 1], q, dist);
      var d := dist(a[|a| - 1], q);
      if m.Above(d) then Finite(d) else m
  }

  /** The minimum distance from each sampled point to the reference path. */
  function Deviations(a: seq<Point>, sampled: seq<Point>, dist: Distance): (devs: seq<real>)
    requires a != []
    ensures |devs| == |sampled|
  {
    seq(|sampled|, k requires 0 <= k < |sampled| => Nearest(a, sampled[k], dist).value)
  }

  /** `totalDeviation` after the outer loop. */
  function Total(xs: seq<real>): real
    decreases |xs|
  {
    if xs == [] then 0.0 else Total(xs[..|xs| - 1]) + xs[|xs| - 1]
  }

  /** `maxDeviation` after the outer loop: it starts at 0. */
  function Largest(xs: seq<real>): real
    decreases |xs|
  {
    if xs == [] then 0.0
    else
      var m := Largest(xs[..|xs| - 1]);
      if xs[|xs| - 1] > m then xs[|xs| - 1] else m
  }

  /** The inner loop finds the distance to the nearest point: a minimum that is attained. */
  lemma {:induction false} NearestIsMinimum(a: seq<Point>, q: Point, dist: Distance)
    requires a != []
    ensures forall j | 0 <= j < |a| :: Nearest(a, q, dist).value <= dist(a[j], q)
    ensures exists j | 0 <= j < |a| :: Nearest(a, q, dist).value == dist(a[j], q)
    decreases |a|
  {
    var last := |a| - 1;
    if last > 0 {
      var front := a[..last];
      NearestIsMinimum(front, q, dist);
      var j :| 0 <= j < |front| && Nearest(front, q, dist).value == dist(front[j], q);
      assert forall i | 0 <= i < last :: a[i] == front[i];
      if Nearest(front, q, dist).Above(dist(a[last], q)) {
        assert Nearest(a, q, dist).value == dist(a[last], q);
      } else {
        assert Nearest(a, q, dist).value == dist(a[j], q);
      }
    } else {
      assert Nearest(a, q, dist).value == dist(a[0], q);
    }
  }

  /** maxDeviation is at least 0 and every value, and is 0 or one of the values. */
  lemma {:induction false} LargestIsMaximum(xs: seq<real>)
    ensures 0.0 <= Largest(xs)
    ensures forall k | 0 <= k < |xs| :: xs[k] <= Largest(xs)
    ensures Largest(xs) == 0.0 || exists k | 0 <= k < |xs| :: xs[k] == Largest(xs)
    decreases |xs|
  {
    if xs != [] {
      var last := |xs| - 1;
      var front := xs[..last];
      LargestIsMaximum(front);
      assert forall i | 0 <= i < last :: xs[i] == front[i];
      if Largest(front) != 0.0 && xs[last] <= Largest(front) {
        var k :| 0 <= k < |front| && front[k] == Largest(front);
        assert xs[k] == Largest(xs);
      }
    }
  }

  /** The unrounded deviation of path `b` from path `a`. */
  function Measure(a: seq<Point>, b: seq<Point>, sampleCount: nat, dist: Distance): Deviation
    requires a != [] && b != [] && 2 <= sampleCount
  {
    var devs := Deviations(a, Sample(b, sampleCount), dist);
    Deviation(Total(devs) / |devs| as real, Largest(devs))
  }

  /** `Math.round`: the nearest integer, halves rounding up. */
  function RoundHalfUp(x: real): (k: int)
    ensures k as real - 0.5 <= x < k as real + 0.5
  {
    (x + 0.5).Floor
  }

  /** The report for a deviation: rounded values, and the decision on the unrounded ones. */
  function Decide(d: Deviation, avgThreshold: real, maxThreshold: real): (r: Report)
    ensures r.avgDeviationMeters as real - 0.5 <= d.avg < r.avgDeviationMeters as real + 0.5
    ensures r.maxDeviationMeters as real - 0.5 <= d.max < r.maxDeviationMeters as real + 0.5
    ensures r.isDifferentRoute <==> d.avg > avgThreshold || d.max > maxThreshold
  {
    Report(RoundHalfUp(d.avg), RoundHalfUp(d.max), d.avg > avgThreshold || d.max > maxThreshold)
  }

  /** What compareRoutes returns; None is `null`. */
  function Compared(polylineA: string, polylineB: string, options: Options, dist: Distance): (r: Option<Report>)
    requires 2 <= SampleCount(options)
    ensures r.None? <==> polylineA == [] || polylineB == []
  {
    Polyline.DecodedEmpty(polylineA);
    Polyline.DecodedEmpty(polylineB);
    var a := Polyline.Decoded(polylineA);
    var b := Polyline.Decoded(polylineB);
    if a == [] || b == [] then None
    else Some(Decide(Measure(a, b, SampleCount(options), dist), AvgThreshold(options), MaxThreshold(options)))
  }

  // ---------------------------------------------------------------------------
  // compareRoutes (the source's loops)
  // ---------------------------------------------------------------------------

  /**
   * compareRoutes. Decoding never throws on a string, so the `catch` that returns
   * `null` is not reachable here.
   */
  method CompareRoutes(polylineA: string, polylineB: string, options: Options, dist: Distance)
    returns (r: Option<Report>)
    requires Polyline.GroupsFit(polylineA) && Polyline.GroupsFit(polylineB)
    requires 2 <= SampleCount(options)
    ensures r == Compared(polylineA, polylineB, options, dist)
  {
    var sampleCount, avgThreshold, maxThreshold :=
      SampleCount(options), AvgThreshold(options), MaxThreshold(options);
    var pointsA := Polyline.DecodePolyline(polylineA);
    var pointsB := Polyline.DecodePolyline(polylineB);
    if |pointsA| == 0 || |pointsB| == 0 {
      return None;
    }
    var sampledB := SamplePoints(pointsB, sampleCount);
    ghost var devs := Deviations(pointsA, sampledB, dist);
    var totalDeviation, maxDeviation := 0.0, 0.0;
    for k := 0 to |sampledB|
      invariant totalDeviation == Total(devs[..k])
      invariant maxDeviation == Largest(devs[..k])
    {
      var pb := sampledB[k];
      var minDist := Infinity;
      for j := 0 to |pointsA|
        invariant minDist == Nearest(pointsA[..j], pb, dist)
      {
        var d := dist(pointsA[j], pb);
        assert pointsA[..j + 1][..j] == pointsA[..j];
        if minDist.Above(d) {
          minDist := Finite(d);
        }
      }
      assert pointsA[..|pointsA|] == pointsA;
      assert devs[..k + 1][..k] == devs[..k];
      totalDeviation := totalDeviation + minDist.value;
      if minDist.value > maxDeviation {
        maxDeviation := minDist.value;
      }
    }
    assert devs[..|sampledB|] == devs;
    var avgDeviation := totalDeviation / |sampledB| as real;
    r := Some(Report(RoundHalfUp(avgDeviation), RoundHalfUp(maxDeviation),
                     avgDeviation > avgThreshold || maxDeviation > maxThreshold));
  }

  // ---------------------------------------------------------------------------
  // Properties of compareRoutes
  // ---------------------------------------------------------------------------

  /** `null` exactly when one of the two strings is empty: decoding never fails. */
  lemma {:induction false} TotalBelow(xs: seq<real>, bound: real)
    requires forall k | 0 <= k < |xs| :: xs[k] <= bound
    ensures Total(xs) <= |xs| as real * bound
    decreases |xs|
  {
    if xs != [] {
      TotalBelow(xs[..|xs| - 1], bound);
    }
  }

  lemma {:induction false} TotalNonNegative(xs: seq<real>)
    requires forall k | 0 <= k < |xs| :: 0.0 <= xs[k]
    ensures 0.0 <= Total(xs)
    decreases |xs|
  {
    if xs != [] {
      TotalNonNegative(xs[..|xs| - 1]);
    }
  }

  /** With a non-negative distance every per-sample minimum is non-negative. */
  lemma DeviationsNonNegative(a: seq<Point>, sampled: seq<Point>, dist: Distance)
    requires a != []
    requires NonNegative(dist)
    ensures forall k | 0 <= k < |sampled| :: 0.0 <= Deviations(a, sampled, dist)[k]
  {
    forall k | 0 <= k < |sampled| ensures 0.0 <= Deviations(a, sampled, dist)[k] {
      NearestIsMinimum(a, sampled[k], dist);
      var j :| 0 <= j < |a| && Nearest(a, sampled[k], dist).value == dist(a[j], sampled[k]);
    }
  }

  /** With a non-negative distance, 0 <= average <= maximum before rounding. */
  lemma MeasureBounds(a: seq<Point>, b: seq<Point>, sampleCount: nat, dist: Distance)
    requires a != [] && b != [] && 2 <= sampleCount
    requires NonNegative(dist)
    ensures 0.0 <= Measure(a, b, sampleCount, dist).avg <= Measure(a, b, sampleCount, dist).max
  {
    DeviationsNonNegative(a, Sample(b, sampleCount), dist);
    AverageAtMostLargest(Deviations(a, Sample(b, sampleCount), dist));
  }

  /** The mean of non-negative values lies between 0 and `Largest`. */
  lemma AverageAtMostLargest(xs: seq<real>)
    requires xs != []
    requires forall k | 0 <= k < |xs| :: 0.0 <= xs[k]
    ensures 0.0 <= Total(xs) / |xs| as real <= Largest(xs)
  {
    LargestIsMaximum(xs);
    TotalNonNegative(xs);
    TotalBelow(xs, Largest(xs));
    AverageBelow(Total(xs), |xs| as real, Largest(xs));
  }

  lemma AverageBelow(total: real, n: real, bound: real)
    requires 0.0 < n && 0.0 <= total <= n * bound
    ensures 0.0 <= total / n <= bound
  {
  }

  /** The reported values: both non-negative, the average no larger than the maximum. */
  lemma ReportBounds(polylineA: string, polylineB: string, options: Options, dist: Distance)
    requires 2 <= SampleCount(options)
    requires NonNegative(dist)
    requires Compared(polylineA, polylineB, options, dist).Some?
    ensures var r := Compared(polylineA, polylineB, options, dist).value;
            0 <= r.avgDeviationMeters <= r.maxDeviationMeters
  {
    var a, b := Polyline.Decoded(polylineA), Polyline.Decoded(polylineB);
    MeasureBounds(a, b, SampleCount(options), dist);
  }

  /**
   * The decision: a different route exactly when the average deviation exceeds its
   * threshold, or some sampled point of `b` is farther than the maximum threshold from
   * every point of `a` (either signal alone suffices).
   */
  lemma DecisionRule(a: seq<Point>, b: seq<Point>, sampleCount: nat, dist: Distance,
                     avgThreshold: real, maxThreshold: real)
    requires a != [] && b != [] && 2 <= sampleCount
    requires 0.0 <= maxThreshold
    ensures var s := Sample(b, sampleCount);
            Decide(Measure(a, b, sampleCount, dist), avgThreshold, maxThreshold).isDifferentRoute
            <==> Measure(a, b, sampleCount, dist).avg > avgThreshold ||
                 exists k | 0 <= k < |s| :: forall j | 0 <= j < |a| :: dist(a[j], s[k]) > maxThreshold
  {
    var s := Sample(b, sampleCount);
    var devs := Deviations(a, s, dist);
    LargestIsMaximum(devs);
    if Largest(devs) > maxThreshold {
      var k :| 0 <= k < |devs| && devs[k] == Largest(devs);
      NearestIsMinimum(a, s[k], dist);
      assert forall j | 0 <= j < |a| :: dist(a[j], s[k]) > maxThreshold;
    }
    if exists k | 0 <= k < |s| :: forall j | 0 <= j < |a| :: dist(a[j], s[k]) > maxThreshold {
      var k :| 0 <= k < |s| && forall j | 0 <= j < |a| :: dist(a[j], s[k]) > maxThreshold;
      NearestIsMinimum(a, s[k], dist);
      var j :| 0 <= j < |a| && devs[k] == dist(a[j], s[k]);
      assert devs[k] > maxThreshold;
    }
  }

  lemma {:induction false} TotalZero(xs: seq<real>)
    requires forall k | 0 <= k < |xs| :: xs[k] == 0.0
    ensures Total(xs) == 0.0
    decreases |xs|
  {
    if xs != [] {
      TotalZero(xs[..|xs| - 1]);
    }
  }

  /** Comparing a path with itself gives 0, 0 and "same route". */
  lemma IdenticalRoutes(polyline: string, options: Options, dist: Distance)
    requires 2 <= SampleCount(options)
    requires NonNegative(dist) && ZeroOnSelf(dist)
    requires 0.0 <= AvgThreshold(options) && 0.0 <= MaxThreshold(options)
    requires polyline != []
    ensures Compared(polyline, polyline, options, dist) == Some(Report(0, 0, false))
  {
    var a := Polyline.Decoded(polyline);
    Polyline.DecodedEmpty(polyline);
    var s := Sample(a, SampleCount(options));
    var devs := Deviations(a, s, dist);
    SampleMembers(a, SampleCount(options));
    forall k | 0 <= k < |devs| ensures devs[k] == 0.0 {
      NearestIsMinimum(a, s[k], dist);
      var j :| 0 <= j < |a| && a[j] == s[k];
      assert devs[k] <= dist(a[j], s[k]);
      var i :| 0 <= i < |a| && devs[k] == dist(a[i], s[k]);
    }
    TotalZero(devs);
    LargestIsMaximum(devs);
  }

  /** Distance along the latitude only, used to exhibit the asymmetry below. */
  function LatitudeGap(p: Point, q: Point): real {
    if p.lat >= q.lat then (p.lat - q.lat) as real else (q.lat - p.lat) as real
  }

  /** The reference path of the asymmetry example, and a candidate lying on its start. */
  const LongPath := [Polyline.Point(0, 0), Polyline.Point(1000, 0), Polyline.Point(2000, 0)]
  const ShortPath := [Polyline.Point(0, 0)]

  /** The short path sampled against the long one deviates nowhere. */
  lemma ContainedDeviation()
    ensures Measure(LongPath, ShortPath, DefaultSampleCount, LatitudeGap) == Deviation(0.0, 0.0)
  {
    var p0, p1 := Polyline.Point(0, 0), Polyline.Point(1000, 0);
    assert LongPath[..1] == [p0] && LongPath[..2] == [p0, p1] && LongPath[..3] == LongPath;
    assert Nearest(LongPath, p0, LatitudeGap) == Finite(0.0);
    var devs := Deviations(LongPath, Sample(ShortPath, DefaultSampleCount), LatitudeGap);
    assert devs == [0.0];
    assert devs[..0] == [];
    assert Total(devs) == 0.0 && Largest(devs) == 0.0;
  }

  /** The long path sampled against the short one deviates by 0, 1000 and 2000. */
  lemma SwappedDeviation()
    ensures Measure(ShortPath, LongPath, DefaultSampleCount, LatitudeGap) == Deviation(1000.0, 2000.0)
  {
    var p0, p1, p2 := Polyline.Point(0, 0), Polyline.Point(1000, 0), Polyline.Point(2000, 0);
    assert Nearest(ShortPath, p1, LatitudeGap) == Finite(1000.0);
    assert Nearest(ShortPath, p2, LatitudeGap) == Finite(2000.0);
    var devs := Deviations(ShortPath, Sample(LongPath, DefaultSampleCount), LatitudeGap);
    assert devs == [0.0, 1000.0, 2000.0];
    assert devs[..2][..1] == [0.0] && devs[..2] == [0.0, 1000.0];
    assert [0.0][..0] == [];
    assert Total(devs[..1]) == 0.0 && Total(devs[..2]) == 1000.0 && Total(devs) == 3000.0;
    assert Largest(devs[..1]) == 0.0 && Largest(devs[..2]) == 1000.0 && Largest(devs) == 2000.0;
  }

  /**
   * Only B is sampled against A: a candidate lying on a longer reference is the same
   * route, while the reference compared against that candidate is a different one.
   */
  lemma OneSided()
    ensures Compared(Polyline.Encoded(LongPath), Polyline.Encoded(ShortPath), NoOptions, LatitudeGap)
         == Some(Report(0, 0, false))
    ensures Compared(Polyline.Encoded(ShortPath), Polyline.Encoded(LongPath), NoOptions, LatitudeGap)
         == Some(Report(1000, 2000, true))
  {
    assert LongPath[1..][1..] == [Polyline.Point(2000, 0)];
    assert Polyline.DeltasFit(LongPath);
    assert Polyline.DeltasFit(ShortPath);
    Polyline.RoundTrip(LongPath);
    Polyline.RoundTrip(ShortPath);
    var long, short := Polyline.Encoded(LongPath), Polyline.Encoded(ShortPath);
    assert Polyline.Decoded(long) == LongPath && Polyline.Decoded(short) == ShortPath;
    assert SampleCount(NoOptions) == DefaultSampleCount;
    assert AvgThreshold(NoOptions) == DefaultAvgThreshold && MaxThreshold(NoOptions) == DefaultMaxThreshold;
    ContainedDeviation();
    assert Decide(Deviation(0.0, 0.0), DefaultAvgThreshold, DefaultMaxThreshold) == Report(0, 0, false);
    SwappedDeviation();
    assert Decide(Deviation(1000.0, 2000.0), DefaultAvgThreshold, DefaultMaxThreshold) == Report(1000, 2000, true);
  }
}
