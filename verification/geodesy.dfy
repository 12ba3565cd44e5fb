/**
 * The planar pieces of the library's geodesy: interpolation between two
 * coordinates and the antimeridian wrap of a longitude difference. Python
 * floats are modelled as reals, so the properties hold exactly here and up
 * to rounding in the Python code.
 */
module Geodesy {

  /** A coordinate in decimal degrees, Python's `(lat, lon)` tuple. */
  datatype Point = Point(lat: real, lon: real)

  /** A strictly positive real: the value `math.pi` stands for. */
  type Positive = x: real | x > 0.0 witness 1.0

  function Abs(x: real): real {
    if x < 0.0 then -x else x
  }

  function Min(a: real, b: real): real {
    if a <= b then a else b
  }

  function Max(a: real, b: real): real {
    if a <= b then b else a
  }

  // ---------------------------------------------------------------------
  // points_along_line

  /**
   * `points_along_line(num_points, lat1, lon1, lat2, lon2)`: nothing for a
   * non-positive count, the midpoint for one, the two endpoints for two, and
   * otherwise `num_points` points spread evenly in lat/lon space from the
   * first endpoint to the second.
   */
  function PointsAlongLine(numPoints: int, lat1: real, lon1: real, lat2: real, lon2: real): (r: seq<Point>)
    ensures numPoints <= 0 ==> r == []
    ensures numPoints > 0 ==> |r| == numPoints
    // a single point is the midpoint: equally far from both endpoints in each coordinate
    ensures numPoints == 1 ==> r[0].lat - lat1 == lat2 - r[0].lat && r[0].lon - lon1 == lon2 - r[0].lon
    ensures numPoints == 2 ==> r == [Point(lat1, lon1), Point(lat2, lon2)]
  {
    if numPoints <= 0 then []
    else if numPoints == 1 then [Point((lat1 + lat2) / 2.0, (lon1 + lon2) / 2.0)]
    else if numPoints == 2 then [Point(lat1, lon1), Point(lat2, lon2)]
    else
      var latStep := (lat2 - lat1) / (numPoints - 1) as real;
      var lonStep := (lon2 - lon1) / (numPoints - 1) as real;
      seq(numPoints, i => Point(lat1 + i as real * latStep, lon1 + i as real * lonStep))
  }

  /** `p` is `start` moved by `k` whole steps. */
  function Stepped(start: Point, latStep: real, lonStep: real, k: int): Point {
    Point(start.lat + k as real * latStep, start.lon + k as real * lonStep)
  }

  /** Every neighbouring pair of `s` differs by the same step. */
  ghost predicate EvenlySpaced(s: seq<Point>, latStep: real, lonStep: real) {
    forall i :: 0 <= i < |s| - 1 ==>
      s[i + 1].lat - s[i].lat == latStep && s[i + 1].lon - s[i].lon == lonStep
  }

  lemma MultiplyQuotient(a: real, b: real)
    requires b != 0.0
    ensures b * (a / b) == a
  {
  }

  lemma QuotientOfProduct(a: real, b: real, x: real)
    requires b != 0.0 && b * x == a
    ensures x == a / b
  {
  }

  lemma ProductNonNegative(a: real, b: real)
    requires a >= 0.0 && b >= 0.0
    ensures a * b >= 0.0
  {
  }

  /** From three points on, point `i` is the first endpoint moved `i` steps of `1/(n-1)` of the displacement. */
  lemma PointsAlongLineAt(numPoints: int, lat1: real, lon1: real, lat2: real, lon2: real, i: int)
    requires numPoints >= 3 && 0 <= i < numPoints
    ensures PointsAlongLine(numPoints, lat1, lon1, lat2, lon2)[i]
         == Stepped(Point(lat1, lon1), (lat2 - lat1) / (numPoints - 1) as real, (lon2 - lon1) / (numPoints - 1) as real, i)
  {
  }

  /** From two points on, the line starts at the first endpoint and ends exactly at the second. */
  lemma PointsAlongLineEndpoints(numPoints: int, lat1: real, lon1: real, lat2: real, lon2: real)
    requires numPoints >= 2
    ensures PointsAlongLine(numPoints, lat1, lon1, lat2, lon2)[0] == Point(lat1, lon1)
    ensures PointsAlongLine(numPoints, lat1, lon1, lat2, lon2)[numPoints - 1] == Point(lat2, lon2)
  {
    if numPoints >= 3 {
      var m := (numPoints - 1) as real;
      PointsAlongLineAt(numPoints, lat1, lon1, lat2, lon2, 0);
      PointsAlongLineAt(numPoints, lat1, lon1, lat2, lon2, numPoints - 1);
      MultiplyQuotient(lat2 - lat1, m);
      MultiplyQuotient(lon2 - lon1, m);
    }
  }

  /** From two points on, consecutive points differ by one `(n-1)`-th of the whole displacement. */
  lemma PointsAlongLineEvenlySpaced(numPoints: int, lat1: real, lon1: real, lat2: real, lon2: real, i: int)
    requires 0 <= i < numPoints - 1
    ensures PointsAlongLine(numPoints, lat1, lon1, lat2, lon2)[i + 1].lat
          - PointsAlongLine(numPoints, lat1, lon1, lat2, lon2)[i].lat == (lat2 - lat1) / (numPoints - 1) as real
    ensures PointsAlongLine(numPoints, lat1, lon1, lat2, lon2)[i + 1].lon
          - PointsAlongLine(numPoints, lat1, lon1, lat2, lon2)[i].lon == (lon2 - lon1) / (numPoints - 1) as real
  {
    if numPoints >= 3 {
      var latStep := (lat2 - lat1) / (numPoints - 1) as real;
      var lonStep := (lon2 - lon1) / (numPoints - 1) as real;
      assert (i + 1) as real * latStep == i as real * latStep + latStep;
      assert (i + 1) as real * lonStep == i as real * lonStep + lonStep;
    }
  }

  /** An evenly spaced sequence is fixed by its first point and its step. */
  lemma {:induction false} EvenlySpacedClosedForm(s: seq<Point>, latStep: real, lonStep: real, k: int)
    requires EvenlySpaced(s, latStep, lonStep)
    requires 0 <= k < |s|
    ensures s[k] == Stepped(s[0], latStep, lonStep, k)
    decreases k
  {
    if k > 0 {
      EvenlySpacedClosedForm(s, latStep, lonStep, k - 1);
      assert s[k].lat - s[k - 1].lat == latStep;
      assert k as real * latStep == (k - 1) as real * latStep + latStep;
      assert k as real * lonStep == (k - 1) as real * lonStep + lonStep;
    }
  }

  /**
   * Any sequence of `numPoints >= 2` evenly spaced points running from the
   * first endpoint to the second is the one `PointsAlongLine` returns: the
   * interpolation is the only evenly spaced walk between the endpoints.
   */
  lemma PointsAlongLineUnique(numPoints: int, lat1: real, lon1: real, lat2: real, lon2: real,
                              s: seq<Point>, latStep: real, lonStep: real)
    requires numPoints >= 2 && |s| == numPoints
    requires EvenlySpaced(s, latStep, lonStep)
    requires s[0] == Point(lat1, lon1) && s[numPoints - 1] == Point(lat2, lon2)
    ensures s == PointsAlongLine(numPoints, lat1, lon1, lat2, lon2)
  {
    var r := PointsAlongLine(numPoints, lat1, lon1, lat2, lon2);
    if numPoints >= 3 {
      var m := (numPoints - 1) as real;
      EvenlySpacedClosedForm(s, latStep, lonStep, numPoints - 1);
      QuotientOfProduct(lat2 - lat1, m, latStep);
      QuotientOfProduct(lon2 - lon1, m, lonStep);
      forall k | 0 <= k < numPoints
        ensures s[k] == r[k]
      {
        EvenlySpacedClosedForm(s, latStep, lonStep, k);
        PointsAlongLineAt(numPoints, lat1, lon1, lat2, lon2, k);
      }
    }
  }

  lemma ScaledBetween(base: real, t: real, d: real)
    requires 0.0 <= t <= 1.0
    ensures Min(base, base + d) <= base + t * d <= Max(base, base + d)
  {
    if d >= 0.0 {
      ProductNonNegative(t, d);
      ProductNonNegative(1.0 - t, d);
      assert d - t * d == (1.0 - t) * d;
    } else {
      ProductNonNegative(t, -d);
      ProductNonNegative(1.0 - t, -d);
      assert t * d - d == (1.0 - t) * -d;
      assert t * -d == -(t * d);
    }
  }

  /** Step `k` of `m` from `base` towards `base + d` stays between the two. */
  lemma InterpolatedBetween(base: real, d: real, k: int, m: int)
    requires 0 <= k <= m && m > 0
    ensures Min(base, base + d) <= base + k as real * (d / m as real) <= Max(base, base + d)
  {
    var t := k as real / m as real;
    assert k as real * (d / m as real) == t * d;
    ScaledBetween(base, t, d);
  }

  /** From three points on, point `k` lies in the box spanned by the two endpoints. */
  lemma PointsAlongLinePointWithin(numPoints: int, lat1: real, lon1: real, lat2: real, lon2: real, k: int)
    requires numPoints >= 3 && 0 <= k < numPoints
    ensures var p := PointsAlongLine(numPoints, lat1, lon1, lat2, lon2)[k];
            Min(lat1, lat2) <= p.lat <= Max(lat1, lat2) && Min(lon1, lon2) <= p.lon <= Max(lon1, lon2)
  {
    PointsAlongLineAt(numPoints, lat1, lon1, lat2, lon2, k);
    InterpolatedBetween(lat1, lat2 - lat1, k, numPoints - 1);
    InterpolatedBetween(lon1, lon2 - lon1, k, numPoints - 1);
  }

  /** Every interpolated point lies in the box spanned by the two endpoints. */
  lemma PointsAlongLineWithinSegment(numPoints: int, lat1: real, lon1: real, lat2: real, lon2: real)
    ensures forall p :: p in PointsAlongLine(numPoints, lat1, lon1, lat2, lon2) ==>
      Min(lat1, lat2) <= p.lat <= Max(lat1, lat2) && Min(lon1, lon2) <= p.lon <= Max(lon1, lon2)
  {
    var r := PointsAlongLine(numPoints, lat1, lon1, lat2, lon2);
    if numPoints >= 3 {
      forall p | p in r
        ensures Min(lat1, lat2) <= p.lat <= Max(lat1, lat2) && Min(lon1, lon2) <= p.lon <= Max(lon1, lon2)
      {
        var k :| 0 <= k < |r| && r[k] == p;
        PointsAlongLinePointWithin(numPoints, lat1, lon1, lat2, lon2, k);
      }
    }
  }

  /** Worked examples of `points_along_line`. */
  lemma PointsAlongLineExamples()
    ensures PointsAlongLine(2, 1.0, 2.0, 3.0, 4.0) == [Point(1.0, 2.0), Point(3.0, 4.0)]
    ensures PointsAlongLine(1, 0.0, 0.0, 2.0, 2.0) == [Point(1.0, 1.0)]
    ensures PointsAlongLine(0, 5.0, 6.0, 7.0, 8.0) == []
    ensures PointsAlongLine(5, 0.0, 0.0, 4.0, 0.0)
         == [Point(0.0, 0.0), Point(1.0, 0.0), Point(2.0, 0.0), Point(3.0, 0.0), Point(4.0, 0.0)]
  {
    var r := PointsAlongLine(5, 0.0, 0.0, 4.0, 0.0);
    assert r[1] == Point(1.0, 0.0) && r[2] == Point(2.0, 0.0) && r[3] == Point(3.0, 0.0);
  }

  // ---------------------------------------------------------------------
  // bearing: the antimeridian wrap of the longitude difference

  /** `math.radians(deg)` for a given value of pi. */
  function Radians(deg: real, pi: Positive): (r: real)
    // radians are proportional to degrees, with 180 degrees making half a turn
    ensures r * 180.0 == deg * pi
  {
    deg * pi / 180.0
  }

  /**
   * The `if abs(dLong) > math.pi` adjustment in `bearing`: a difference of
   * more than half a turn is replaced by the same direction taken the other
   * way round, one full turn (2 pi) nearer to zero.
   */
  function WrapLongitudeDelta(dLong: real, pi: Positive): (r: real)
    // the result names the same direction: it differs by no turn or by one full turn
    ensures r == dLong || r == dLong - 2.0 * pi || r == dLong + 2.0 * pi
    // only a difference of more than half a turn is changed
    ensures r == dLong <==> Abs(dLong) <= pi
    // a change moves towards zero, never away from it
    ensures Abs(r) < Abs(dLong) || r == dLong
    // from at most a full turn it lands within half a turn
    ensures Abs(dLong) <= 2.0 * pi ==> Abs(r) <= pi
  {
    if Abs(dLong) > pi then
      if dLong > 0.0 then -(2.0 * pi - dLong) else 2.0 * pi + dLong
    else
      dLong
  }

  /** Wrapping a difference of at most one turn is idempotent. */
  lemma WrapLongitudeDeltaIdempotent(dLong: real, pi: Positive)
    requires Abs(dLong) <= 2.0 * pi
    ensures WrapLongitudeDelta(WrapLongitudeDelta(dLong, pi), pi) == WrapLongitudeDelta(dLong, pi)
  {
  }

  lemma ScaledWithin(d: real, u: real, c: real)
    requires u > 0.0 && Abs(d) <= c
    ensures Abs(d * u) <= c * u
  {
    if d >= 0.0 {
      ProductNonNegative(c - d, u);
      assert c * u - d * u == (c - d) * u;
    } else {
      ProductNonNegative(c + d, u);
      assert c * u + d * u == (c + d) * u;
      assert -d * u == -(d * u);
    }
  }

  lemma ScaledBeyond(d: real, u: real, c: real)
    requires u > 0.0 && Abs(d) > c
    ensures Abs(d * u) > c * u
  {
    if d >= 0.0 {
      assert d * u - c * u == (d - c) * u;
    } else {
      assert -d * u - c * u == (-d - c) * u;
      assert -d * u == -(d * u);
    }
  }

  /**
   * The raw radian difference `endLong - startLong` is the degree difference
   * scaled by pi/180: within one turn for differences of at most 360 degrees,
   * within half a turn for differences of at most 180.
   */
  lemma RadianDifferenceBounds(lon1: real, lon2: real, pi: Positive)
    ensures (Radians(lon2, pi) - Radians(lon1, pi)) * 180.0 == (lon2 - lon1) * pi
    ensures Abs(lon2 - lon1) <= 360.0 ==> Abs(Radians(lon2, pi) - Radians(lon1, pi)) <= 2.0 * pi
    ensures Abs(lon2 - lon1) <= 180.0 ==> Abs(Radians(lon2, pi) - Radians(lon1, pi)) <= pi
    ensures Abs(lon2 - lon1) > 180.0 ==> Abs(Radians(lon2, pi) - Radians(lon1, pi)) > pi
  {
    var u := pi / 180.0;
    var d := lon2 - lon1;
    assert Radians(lon2, pi) == lon2 * u;
    assert Radians(lon1, pi) == lon1 * u;
    assert Radians(lon2, pi) - Radians(lon1, pi) == d * u;
    assert 360.0 * u == 2.0 * pi && 180.0 * u == pi;
    if Abs(d) <= 360.0 {
      ScaledWithin(d, u, 360.0);
    }
    if Abs(d) <= 180.0 {
      ScaledWithin(d, u, 180.0);
    } else {
      ScaledBeyond(d, u, 180.0);
    }
  }

  /**
   * `dLong` as `bearing` computes it from longitudes in degrees: the radian
   * difference, wrapped.
   */
  function LongitudeDelta(lon1: real, lon2: real, pi: Positive): (r: real)
    // the difference is passed on unwrapped, converted to radians, exactly when it is at most 180 degrees
    ensures r * 180.0 == (lon2 - lon1) * pi <==> Abs(lon2 - lon1) <= 180.0
    // a larger difference is wrapped towards zero
    ensures Abs(lon2 - lon1) > 180.0 ==> Abs(r) < Abs(Radians(lon2, pi) - Radians(lon1, pi))
    // for longitudes in [-180, 180] the result is within half a turn
    ensures -180.0 <= lon1 <= 180.0 && -180.0 <= lon2 <= 180.0 ==> Abs(r) <= pi
    // otherwise it names the same direction: at most one full turn away from the raw difference
    ensures r * 180.0 == (lon2 - lon1) * pi || r * 180.0 == (lon2 - lon1) * pi - 360.0 * pi
         || r * 180.0 == (lon2 - lon1) * pi + 360.0 * pi
  {
    RadianDifferenceBounds(lon1, lon2, pi);
    WrapLongitudeDelta(Radians(lon2, pi) - Radians(lon1, pi), pi)
  }
}
