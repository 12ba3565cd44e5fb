# sunstone geodesy and geocode reshaping, in Dafny

This project models the pure core of the `sunstone` library
(`src/sunstone/__init__.py`), a set of geospatial helpers written on top of a
geocoding service:

- `points_along_line`: evenly spaced points between two coordinates
  (module `Geodesy`, file `geodesy.dfy`);
- the antimeridian wrap of the longitude difference inside `bearing`
  (`Geodesy.WrapLongitudeDelta`);
- the relaxation search of `bounds`: the starting corners, the refinement
  step, and both `while` loops with a step budget (module `BoundingBox`,
  file `bounds.dfy`);
- the reshaping of a geocoding result: `bundle_result`,
  `coordinates_from_result`, `address_parts_from_result` and
  `canonical_address` (module `Geocode`, file `geocode.dfy`), over Python's
  `str.split` and `str.join` for one-character separators (module `Text`,
  file `text.dfy`) and an `Option` type for missing keys and `None`
  (module `Optional`, file `optional.dfy`).

Python floats are modelled as Dafny `real`s, so every equation here is
exact; the Python code computes the same expressions with rounding. `math.pi`
is a parameter of type `Positive`. The great-circle distance that `bounds`
calls is a parameter `distance: (Point, Point) -> real`, so the results
about `bounds` hold whatever distance function is used.

A result dictionary becomes the record `GeocodeResult`: keys the code reads
with `.get(...)` or tests with `in` (`formatted_address`, `vicinity`,
`address_components`) are `Option` fields; `geometry.location`, which the
code indexes directly, is a required field.

Two behaviours of the code are worth knowing:

- `canonical_address` returns `None` only when the result has no address
  components. Components carrying none of the keys `street_number`, `route`
  and `locality/political` give the empty string
  (`Geocode.CanonicalAddressWithoutKnownParts`).
- The corner offsets of `bounds` are a thousandth of the centre's own
  coordinates, so the "north-east" corner lies on the side of the centre
  that the centre's signs point to: south-west of it for a centre with
  negative coordinates (`BoundingBox.Bounds`). At the origin both starting
  corners coincide with the centre and no refinement moves them
  (`BoundingBox.StartingCornersDegenerateAtOrigin`,
  `BoundingBox.Iterate`), so the search can end only if the centre itself
  is within tolerance; with haversine distance it never is, and for a
  non-zero radius the Python loop does not terminate (a zero radius raises
  `ZeroDivisionError` in the loop test instead).

## Model

| member | source | states |
|---|---|---|
| Text.Split | src/sunstone/__init__.py:113 | `str.split(sep)` gives at least one field, no field holds the separator, and the first field is the prefix of the string up to its first separator |
| Text.FirstField | src/sunstone/__init__.py:113 | `split(",")[0]` is a separator-free prefix of the string, followed by the separator when shorter, and the whole string when it has no separator |
| Text.JoinSplit | src/sunstone/__init__.py:113 | joining the fields of a split with the same separator gives back the original string |
| Text.SplitJoin | src/sunstone/__init__.py:123 | splitting a `"/".join` of separator-free parts recovers the parts, so a non-empty list of slash-free types can be recovered from the key it joins into |
| Text.Join | src/sunstone/__init__.py:123 | `sep.join(parts)` is empty for no parts, the part itself for one, and otherwise starts with the first part followed by the separator |
| Geodesy.PointsAlongLine | src/sunstone/__init__.py:49-59 | no points for a count of at most 0, otherwise exactly `num_points` points; for one point a single point equally far from both endpoints in each coordinate; for two the endpoints, in order and unmodified |
| Geodesy.PointsAlongLineAt | src/sunstone/__init__.py:56-58 | from three points on, point `i` is `(lat1 + i*(lat2-lat1)/(n-1), lon1 + i*(lon2-lon1)/(n-1))` |
| Geodesy.PointsAlongLineEndpoints | src/sunstone/__init__.py:56-58 | with two or more points the first is `(lat1, lon1)` and the last is exactly `(lat2, lon2)` |
| Geodesy.PointsAlongLineEvenlySpaced | src/sunstone/__init__.py:56-58 | consecutive points differ by the same step, `(lat2-lat1)/(n-1)` in latitude and `(lon2-lon1)/(n-1)` in longitude |
| Geodesy.PointsAlongLineUnique | src/sunstone/__init__.py:49-59 | any evenly spaced sequence of `n >= 2` points from the first endpoint to the second equals the result, so the interpolation is the only such walk |
| Geodesy.PointsAlongLineWithinSegment | src/sunstone/__init__.py:49-59 | every returned point lies within the latitude and longitude ranges spanned by the endpoints |
| Geodesy.PointsAlongLineExamples | src/sunstone/__init__.py:49-59 | the worked cases: two points give the endpoints, one point gives the midpoint, zero gives nothing, five points from (0,0) to (4,0) step by one degree of latitude |
| Geodesy.WrapLongitudeDelta | src/sunstone/__init__.py:26-30 | the wrap changes the difference only when it exceeds half a turn, changes it by exactly one full turn, moves it towards zero, and brings any difference of at most a full turn within half a turn |
| Geodesy.WrapLongitudeDeltaIdempotent | src/sunstone/__init__.py:26-30 | wrapping an already wrapped difference changes nothing |
| Geodesy.RadianDifferenceBounds | src/sunstone/__init__.py:18-23 | the raw radian difference is the degree difference times pi/180, within one turn for at most 360 degrees and within half a turn for at most 180 |
| Geodesy.Radians | src/sunstone/__init__.py:18-21 | `math.radians` is proportional to degrees, 180 degrees giving pi |
| Geodesy.LongitudeDelta | src/sunstone/__init__.py:18-30 | the `dLong` passed on is the unwrapped radian difference exactly when the longitudes differ by at most 180 degrees, and a larger difference is wrapped to a smaller magnitude than the raw one; within half a turn for longitudes in [-180, 180], and always the raw difference shifted by no turn or one full turn |
| BoundingBox.InitialNortheast | src/sunstone/__init__.py:63-64 | the north-east corner starts offset from the centre by one thousandth of the centre's latitude and longitude |
| BoundingBox.InitialSouthwest | src/sunstone/__init__.py:65-66 | the south-west corner starts offset by minus one thousandth of the centre's latitude and longitude |
| BoundingBox.RefineCorner | src/sunstone/__init__.py:69-74 | a corner farther than the radius has its offset from the centre halved, otherwise its offset is grown by a tenth, in latitude and longitude alike |
| BoundingBox.RefineCornerStaysOnRay | src/sunstone/__init__.py:79-84 | a refinement keeps the corner's offset a positive multiple of the starting offset |
| BoundingBox.OnRayKeepsSide | src/sunstone/__init__.py:68-85 | a corner whose offset is a positive multiple of the starting offset is on the same side of the centre in latitude and in longitude |
| BoundingBox.WithinTolerance | src/sunstone/__init__.py:68 | the loop's exit test never passes for a zero radius, and for a positive radius passes exactly when the distance is between 90% and 110% of the radius; the south-west loop's test at line 78 is the same |
| BoundingBox.Iterate | src/sunstone/__init__.py:69-75 | every corner the loop body produces, after any number of passes, keeps a positive multiple of the starting offset, and a corner that starts at the centre stays there; the south-west loop body at lines 79-85 is the same |
| BoundingBox.RelaxCorner | src/sunstone/__init__.py:68-75 | one search loop: a zero radius fails; a converged corner is the first iterate of the refinement step that passes the 10% test, reached within the budget, and the search converges exactly when such an iterate exists; an exhausted search returns the corner after all `maxSteps` refinements, none of which passed; the corner stays a positive multiple of its starting offset, an already passing corner is returned unchanged, and a corner starting at the centre never converges unless the centre passes |
| BoundingBox.BoxSides | src/sunstone/__init__.py:62-66 | corners that keep positive multiples of the starting offsets `(lat*.001, lon*.001)` and `(-lat*.001, -lon*.001)` lie on the side of the centre given by its signs (north-east) and on the opposite side (south-west) |
| BoundingBox.Bounds | src/sunstone/__init__.py:61-86 | a box comes back exactly when the radius is non-zero and both corner searches pass within the budget; its corners are the first passing iterates from the north-east and south-west starting corners, both within 10% of the radius, each a positive multiple of its starting offset, the north-east corner on the side of the centre given by the centre's signs and the south-west corner on the other |
| BoundingBox.StartingCornersDegenerateAtOrigin | src/sunstone/__init__.py:63-74 | the starting corners equal the centre exactly when the centre is the origin, and refinement leaves a corner at the centre where it is |
| Geocode.BundleResult | src/sunstone/__init__.py:112-113 | `full_address` is the formatted address or `"<unknown>"`, `address` is its part before the first comma, and `lat` and `lon` are `geometry.location`'s `lat` and `lng` |
| Geocode.CoordinatesFromResult | src/sunstone/__init__.py:118-120 | `coordinates_from_result` gives the `(lat, lng)` pair the bundle stores as `lat` and `lon`, in that order, which by the bundle's contract is `geometry.location`'s `lat` then `lng` |
| Geocode.BundleOfCommaFreeAddress | src/sunstone/__init__.py:113 | a formatted address without a comma is also the street address |
| Geocode.ComponentKey | src/sunstone/__init__.py:123 | a component's key is its single type when it has one, starts with the first type and a slash when it has several, and is empty for no types |
| Geocode.ComponentKeySplits | src/sunstone/__init__.py:123 | the types of a component with at least one slash-free type are recovered by splitting its key at slashes |
| Geocode.ComponentName | src/sunstone/__init__.py:123 | the stored name is the short name when `short` is set and the long name otherwise |
| Geocode.ComponentsOf | src/sunstone/__init__.py:123 | a missing `address_components` reads as the empty list, a present one as the list itself |
| Geocode.AddressPartsKeys | src/sunstone/__init__.py:123 | the parts map has exactly the `"/"`-joined type lists of the components as keys |
| Geocode.AddressPartsLastWins | src/sunstone/__init__.py:123 | each key maps to the name of the last component with that key |
| Geocode.AddressParts | src/sunstone/__init__.py:123 | the comprehension stores the last component's name under its key, and holds no key that no component carries |
| Geocode.AddressPartsLaterWins | src/sunstone/__init__.py:123 | appending a component makes its name the value of its key, overwriting any earlier one |
| Geocode.AddressPartsFromResult | src/sunstone/__init__.py:122-123 | a missing `address_components` gives an empty map; otherwise keys are the joined types and each holds the last matching component's short or long name as `short` selects |
| Geocode.AddressPartsEmpty | src/sunstone/__init__.py:123 | the parts map is empty exactly when the result has no components |
| Geocode.AssembleAddress | src/sunstone/__init__.py:130-137 | the address is made of the present pieces only, in the order street number, route, locality: it starts with the street number and a space when there is one, then the route and a comma-space when there is one, ends with the locality when there is one, has exactly the pieces' total length, and is empty when none is present |
| Geocode.AssembleAddressComplete | src/sunstone/__init__.py:130-136 | with all three pieces present the address is "number route, locality" |
| Geocode.CanonicalAddress | src/sunstone/__init__.py:125-138 | `vicinity` is returned verbatim when present; otherwise the result is `None` exactly when there are no components, and else the assembled long-name address |
| Geocode.CanonicalAddressIgnoresComponents | src/sunstone/__init__.py:126-127 | when `vicinity` is present the components make no difference |
| Geocode.CanonicalAddressWithoutKnownParts | src/sunstone/__init__.py:128-137 | components with none of the three wanted keys give the empty string, not `None` |
| Geocode.ExampleParts | src/sunstone/__init__.py:123 | a locality component typed `["locality", "political"]` is stored under `locality/political` beside the street number and route |
| Geocode.CanonicalAddressExample | src/sunstone/__init__.py:125-138 | a typical street-address result canonicalises to "1600 Amphitheatre Parkway, Mountain View" |

## Left out

- `haversine` (src/sunstone/__init__.py:36-47): transcendental floating-point math; `bounds` takes the distance as a parameter instead.
- The `log`/`tan` and `atan2` parts of `bearing` (lines 25 and 32): transcendental floating-point math; only the wrap of `dLong` and the degree-to-radian conversion of the longitudes are modelled.
- BoundingBox.RelaxCorner: the Python loop has no iteration cap and may not terminate; the model stops after `maxSteps` refinements and reports `Exhausted`, so it says nothing about how many steps convergence takes.
- BoundingBox.Bounds: the Python default `radius_km=1` is not modelled; the radius is always passed explicitly.
- Geocode.AddressPartsFromResult: the Python default `short=False` of `address_parts_from_result` (line 122) is not modelled; `short` is always passed explicitly, and `CanonicalAddress` passes `false` as the Python call at line 128 does by default.
- BoundingBox.Bounds: a zero radius raises `ZeroDivisionError` in Python and is the `ZeroRadiusBox` outcome here; a search that does not converge hangs in Python and is the `NoConvergence` outcome here.
- Floating-point rounding: the constants `1.001`, `.999`, `2`, `10` and the interpolation steps are exact reals here.
- `init`, `bundle_address`, `coordinates_at_address` and `place_at_address`: calls to the remote geocoding client through a process-wide handle, and a `print` of raw JSON.
- `get_random_house`: random sampling, `time.sleep`, remote reverse geocoding and unbounded recursion.
- `business_summary`: depends on a remote places lookup and a catch-all `except` with a traceback print.
- Result fields the modelled functions do not read (`geometry.location_type`, `name`, `types`), and values of the wrong Python type under a key (a `vicinity` of `None`, a non-string name): the record types admit only the shapes the code expects.
- `setup.py`: packaging metadata with no behaviour.
