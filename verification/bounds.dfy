/**
 * The relaxation search in `bounds`: each corner starts at a fixed fraction
 * of the centre's own coordinates and is then repeatedly pulled halfway back
 * to the centre (too far) or pushed a tenth further out (not far enough)
 * until its distance from the centre is within 10% of the radius. The
 * distance (haversine in the library) is a parameter of the model.
 */
module BoundingBox {
  import opened Geodesy

  /** The north-east starting corner, `(lat * 1.001, lon * 1.001)`. */
  function InitialNortheast(centre: Point): (p: Point)
    ensures p.lat - centre.lat == centre.lat / 1000.0
    ensures p.lon - centre.lon == centre.lon / 1000.0
  {
    Point(centre.lat * 1.001, centre.lon * 1.001)
  }

  /** The south-west starting corner, `(lat * .999, lon * .999)`. */
  function InitialSouthwest(centre: Point): (p: Point)
    ensures p.lat - centre.lat == -centre.lat / 1000.0
    ensures p.lon - centre.lon == -centre.lon / 1000.0
  {
    Point(centre.lat * 0.999, centre.lon * 0.999)
  }

  /** The point whose offset from `centre` is `k` times the offset of `start`. */
  function Along(centre: Point, start: Point, k: real): Point {
    Point(centre.lat + k * (start.lat - centre.lat), centre.lon + k * (start.lon - centre.lon))
  }

  /** `p` lies on the open ray from `centre` through `start`: a positive multiple of its offset. */
  ghost predicate OnRay(centre: Point, start: Point, p: Point) {
    exists k: real :: k > 0.0 && p == Along(centre, start, k)
  }

  function Sign(x: real): int {
    if x > 0.0 then 1 else if x < 0.0 then -1 else 0
  }

  /**
   * The body of either `while` loop in `bounds`: halve the corner's offset
   * from the centre when the corner is farther than the radius, otherwise
   * grow the offset by a tenth. Latitude and longitude move together.
   */
  function RefineCorner(centre: Point, corner: Point, distance: real, radiusKm: real): (r: Point)
    ensures distance > radiusKm ==> r == Along(centre, corner, 0.5)
    ensures distance <= radiusKm ==> r == Along(centre, corner, 1.1)
  {
    if distance > radiusKm then
      Point(corner.lat - (corner.lat - centre.lat) / 2.0, corner.lon - (corner.lon - centre.lon) / 2.0)
    else
      Point(corner.lat + (corner.lat - centre.lat) / 10.0, corner.lon + (corner.lon - centre.lon) / 10.0)
  }

  /** Scaling an offset twice is scaling it by the product. */
  lemma AlongAlong(centre: Point, start: Point, k: real, m: real)
    ensures Along(centre, Along(centre, start, k), m) == Along(centre, start, k * m)
  {
    var inner := Along(centre, start, k);
    assert inner.lat - centre.lat == k * (start.lat - centre.lat);
    assert inner.lon - centre.lon == k * (start.lon - centre.lon);
    assert m * (k * (start.lat - centre.lat)) == (k * m) * (start.lat - centre.lat);
    assert m * (k * (start.lon - centre.lon)) == (k * m) * (start.lon - centre.lon);
    assert Along(centre, inner, m).lat == centre.lat + (k * m) * (start.lat - centre.lat);
    assert Along(centre, inner, m).lon == centre.lon + (k * m) * (start.lon - centre.lon);
  }

  /** A refinement step never takes a corner off its ray from the centre. */
  lemma RefineCornerStaysOnRay(centre: Point, start: Point, corner: Point, distance: real, radiusKm: real)
    requires OnRay(centre, start, corner)
    ensures OnRay(centre, start, RefineCorner(centre, corner, distance, radiusKm))
  {
    var k :| k > 0.0 && corner == Along(centre, start, k);
    var m := if distance > radiusKm then 0.5 else 1.1;
    AlongAlong(centre, start, k, m);
    assert RefineCorner(centre, corner, distance, radiusKm) == Along(centre, start, k * m);
  }

  lemma SignOfPositiveMultiple(k: real, x: real)
    requires k > 0.0
    ensures Sign(k * x) == Sign(x)
  {
    if x > 0.0 {
      assert k * x > 0.0;
    } else if x < 0.0 {
      assert k * -x > 0.0;
    }
  }

  /** A point on the ray is on the same side of the centre as `start`, in latitude and in longitude. */
  lemma OnRayKeepsSide(centre: Point, start: Point, p: Point)
    requires OnRay(centre, start, p)
    ensures Sign(p.lat - centre.lat) == Sign(start.lat - centre.lat)
    ensures Sign(p.lon - centre.lon) == Sign(start.lon - centre.lon)
  {
    var k :| k > 0.0 && p == Along(centre, start, k);
    SignOfPositiveMultiple(k, start.lat - centre.lat);
    SignOfPositiveMultiple(k, start.lon - centre.lon);
  }

  lemma RatioWithin(distance: real, radiusKm: real)
    requires radiusKm > 0.0
    ensures Abs(1.0 - distance / radiusKm) <= 0.1 <==> 0.9 * radiusKm <= distance <= 1.1 * radiusKm
  {
    var q := distance / radiusKm;
    assert distance == q * radiusKm;
    assert 0.9 * radiusKm <= distance <==> 0.9 <= q;
    assert distance <= 1.1 * radiusKm <==> q <= 1.1;
  }

  /**
   * The loop's exit test `fabs(1 - distance / radius_km) <= .1`, defined
   * only for a non-zero radius: a zero radius makes Python divide by zero.
   */
  predicate WithinTolerance(distance: real, radiusKm: real)
    ensures radiusKm == 0.0 ==> !WithinTolerance(distance, radiusKm)
    // for a positive radius: the distance is within 10% of the radius, either way
    ensures radiusKm > 0.0 ==>
      (WithinTolerance(distance, radiusKm) <==> 0.9 * radiusKm <= distance <= 1.1 * radiusKm)
  {
    if radiusKm > 0.0 then RatioWithin(distance, radiusKm); Abs(1.0 - distance / radiusKm) <= 0.1
    else radiusKm != 0.0 && Abs(1.0 - distance / radiusKm) <= 0.1
  }

  /**
   * The corner after `n` passes of the loop body, each pass measuring the
   * current corner's distance and refining it with that distance.
   */
  function Iterate(centre: Point, start: Point, distance: (Point, Point) -> real, radiusKm: real, n: nat): (p: Point)
    // every corner the loop reaches keeps a positive multiple of the starting offset
    ensures OnRay(centre, start, p)
    // a corner that starts at the centre stays there
    ensures start == centre ==> p == centre
    decreases n
  {
    if n == 0 then
      assert start == Along(centre, start, 1.0);
      start
    else
      var q := Iterate(centre, start, distance, radiusKm, n - 1);
      RefineCornerStaysOnRay(centre, start, q, distance(centre, q), radiusKm);
      RefineCorner(centre, q, distance(centre, q), radiusKm)
  }

  /** None of the first `n` iterates (passes `0 .. n-1`) passes the exit test. */
  ghost predicate FailsBefore(centre: Point, start: Point, distance: (Point, Point) -> real, radiusKm: real, n: nat) {
    forall j: nat :: j < n ==>
      !WithinTolerance(distance(centre, Iterate(centre, start, distance, radiusKm, j)), radiusKm)
  }

  /** Iterate `n` is the first one to pass the exit test: where the `while` loop stops. */
  ghost predicate FirstPass(centre: Point, start: Point, distance: (Point, Point) -> real, radiusKm: real, n: nat) {
    && WithinTolerance(distance(centre, Iterate(centre, start, distance, radiusKm, n)), radiusKm)
    && FailsBefore(centre, start, distance, radiusKm, n)
  }

  /** Some iterate within `maxSteps` refinements passes the exit test. */
  ghost predicate ConvergesWithin(centre: Point, start: Point, distance: (Point, Point) -> real, radiusKm: real, maxSteps: nat) {
    exists n: nat :: n <= maxSteps &&
                     WithinTolerance(distance(centre, Iterate(centre, start, distance, radiusKm, n)), radiusKm)
  }

  /** `p` is the first passing iterate and is reached within `maxSteps` refinements: where the loop stops. */
  ghost predicate StopsAt(centre: Point, start: Point, distance: (Point, Point) -> real, radiusKm: real, maxSteps: nat, p: Point) {
    exists n: nat :: n <= maxSteps &&
                     p == Iterate(centre, start, distance, radiusKm, n) &&
                     FirstPass(centre, start, distance, radiusKm, n)
  }

  /**
   * How one corner's search ends: the radius is zero (Python raises
   * `ZeroDivisionError` at the first test), the corner passed the test, or
   * the step budget ran out (where Python would keep looping).
   */
  datatype Relaxation = ZeroRadius | Converged(corner: Point) | Exhausted(corner: Point)

  /** One of the two `while` loops of `bounds`, run for at most `maxSteps` refinements. */
  method RelaxCorner(centre: Point, start: Point, distance: (Point, Point) -> real, radiusKm: real, maxSteps: nat)
    returns (r: Relaxation)
    ensures r == ZeroRadius <==> radiusKm == 0.0
    // a converged corner is the first iterate that passes, reached within the budget
    ensures r.Converged? ==> StopsAt(centre, start, distance, radiusKm, maxSteps, r.corner)
    // an exhausted search made all `maxSteps` refinements and no iterate on the way passed
    ensures r.Exhausted? ==> r.corner == Iterate(centre, start, distance, radiusKm, maxSteps)
    ensures r.Exhausted? ==> FailsBefore(centre, start, distance, radiusKm, maxSteps + 1)
    ensures r.Converged? ==> WithinTolerance(distance(centre, r.corner), radiusKm)
    ensures !r.ZeroRadius? ==> (r.Converged? <==> ConvergesWithin(centre, start, distance, radiusKm, maxSteps))
    ensures !r.ZeroRadius? ==> OnRay(centre, start, r.corner)
    // a corner that already passes is returned untouched
    ensures WithinTolerance(distance(centre, start), radiusKm) ==> r == Converged(start)
    // a corner that starts at the centre never moves, so it passes only if the centre does
    ensures start == centre && !WithinTolerance(distance(centre, centre), radiusKm) ==> !r.Converged?
  {
    if radiusKm == 0.0 {
      return ZeroRadius;
    }
    var corner := start;
    var d := distance(centre, corner);
    var steps := 0;
    while !WithinTolerance(d, radiusKm) && steps < maxSteps
      invariant steps <= maxSteps
      invariant corner == Iterate(centre, start, distance, radiusKm, steps)
      invariant d == distance(centre, corner)
      invariant FailsBefore(centre, start, distance, radiusKm, steps)
      decreases maxSteps - steps
    {
      corner := RefineCorner(centre, corner, d, radiusKm);
      d := distance(centre, corner);
      steps := steps + 1;
    }
    if WithinTolerance(d, radiusKm) {
      assert FirstPass(centre, start, distance, radiusKm, steps);
      return Converged(corner);
    }
    assert FailsBefore(centre, start, distance, radiusKm, maxSteps + 1);
    assert !ConvergesWithin(centre, start, distance, radiusKm, maxSteps);
    return Exhausted(corner);
  }

  /**
   * The "north-east" corner `ne` lies on the side of `centre` that the
   * centre's own signs point to, in latitude and in longitude, and the
   * "south-west" corner `sw` on the opposite side.
   */
  predicate CornerSides(centre: Point, ne: Point, sw: Point) {
    && Sign(ne.lat - centre.lat) == Sign(centre.lat) && Sign(ne.lon - centre.lon) == Sign(centre.lon)
    && Sign(sw.lat - centre.lat) == -Sign(centre.lat) && Sign(sw.lon - centre.lon) == -Sign(centre.lon)
  }

  /**
   * Corners that keep positive multiples of their starting offsets lie where
   * the centre's signs put them: the "north-east" corner on the side of the
   * centre's own signs, the "south-west" corner on the other.
   */
  lemma BoxSides(centre: Point, ne: Point, sw: Point)
    requires OnRay(centre, InitialNortheast(centre), ne)
    requires OnRay(centre, InitialSouthwest(centre), sw)
    ensures CornerSides(centre, ne, sw)
  {
    OnRayKeepsSide(centre, InitialNortheast(centre), ne);
    OnRayKeepsSide(centre, InitialSouthwest(centre), sw);
    SignOfPositiveMultiple(1.0 / 1000.0, centre.lat);
    SignOfPositiveMultiple(1.0 / 1000.0, centre.lon);
    SignOfPositiveMultiple(1.0 / 1000.0, -centre.lat);
    SignOfPositiveMultiple(1.0 / 1000.0, -centre.lon);
  }

  /** The result of `bounds`: the two corners, or why there are none. */
  datatype BoundsResult = ZeroRadiusBox | NoConvergence | Box(northeast: Point, southwest: Point)

  /**
   * `bounds(lat, lon, radius_km)`: the north-east loop, then the south-west
   * loop, each limited to `maxSteps` refinements.
   */
  method Bounds(centre: Point, radiusKm: real, distance: (Point, Point) -> real, maxSteps: nat)
    returns (r: BoundsResult)
    ensures r == ZeroRadiusBox <==> radiusKm == 0.0
    // a box comes back exactly when both searches pass within the budget
    ensures r.Box? <==> (radiusKm != 0.0 &&
      ConvergesWithin(centre, InitialNortheast(centre), distance, radiusKm, maxSteps) &&
      ConvergesWithin(centre, InitialSouthwest(centre), distance, radiusKm, maxSteps))
    // and its corners are where the two loops stop
    ensures r.Box? ==> StopsAt(centre, InitialNortheast(centre), distance, radiusKm, maxSteps, r.northeast)
    ensures r.Box? ==> StopsAt(centre, InitialSouthwest(centre), distance, radiusKm, maxSteps, r.southwest)
    ensures r.Box? ==> WithinTolerance(distance(centre, r.northeast), radiusKm)
    ensures r.Box? ==> WithinTolerance(distance(centre, r.southwest), radiusKm)
    // each corner keeps a positive multiple of its starting offset, +/- 0.001 times the centre
    ensures r.Box? ==> OnRay(centre, InitialNortheast(centre), r.northeast)
    ensures r.Box? ==> OnRay(centre, InitialSouthwest(centre), r.southwest)
    // so the "north-east" corner lies on the side the centre's own signs point to
    ensures r.Box? ==> CornerSides(centre, r.northeast, r.southwest)
  {
    var ne := RelaxCorner(centre, InitialNortheast(centre), distance, radiusKm, maxSteps);
    if ne.ZeroRadius? {
      return ZeroRadiusBox;
    }
    if ne.Exhausted? {
      return NoConvergence;
    }
    var sw := RelaxCorner(centre, InitialSouthwest(centre), distance, radiusKm, maxSteps);
    if !sw.Converged? {
      return NoConvergence;
    }
    BoxSides(centre, ne.corner, sw.corner);
    return Box(ne.corner, sw.corner);
  }

  /**
   * The starting corners coincide with the centre exactly when the centre is
   * the origin, and a corner at the centre is a fixed point of refinement:
   * at the origin the search can only end if the centre itself passes the
   * tolerance test.
   */
  lemma StartingCornersDegenerateAtOrigin(centre: Point, distance: real, radiusKm: real)
    ensures InitialNortheast(centre) == centre <==> centre == Point(0.0, 0.0)
    ensures InitialSouthwest(centre) == centre <==> centre == Point(0.0, 0.0)
    ensures RefineCorner(centre, centre, distance, radiusKm) == centre
  {
  }
}
