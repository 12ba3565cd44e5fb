/**
 * The pure reshaping of geocoding results: the address bundle, the
 * coordinates, the address-component map and the canonical address string.
 * A result dictionary becomes a record; keys that the code reads with
 * `.get(...)` or tests with `in` are optional fields, keys it indexes
 * directly are required ones.
 */
module Geocode {
  import opened Optional
  import opened Text
  import opened Geodesy

  datatype LatLng = LatLng(lat: real, lng: real)

  /** `result["geometry"]`; only its `location` is read here. */
  datatype Geometry = Geometry(location: LatLng)

  /** One entry of `address_components`. */
  datatype Component = Component(types: seq<string>, longName: string, shortName: string)

  datatype GeocodeResult = GeocodeResult(
    formattedAddress: Option<string>,
    geometry: Geometry,
    vicinity: Option<string>,
    addressComponents: Option<seq<Component>>)

  /** The flat record `bundle_result` builds. */
  datatype AddressBundle = AddressBundle(address: string, lat: real, lon: real, fullAddress: string)

  const Unknown: string := "<unknown>"

  /** `coordinates_from_result`: the `(lat, lng)` of `geometry.location`. */
  function CoordinatesFromResult(result: GeocodeResult): (p: Point)
    // the same pair, in the same order, that the bundle stores as `lat` and `lon`
    ensures p == Point(BundleResult(result).lat, BundleResult(result).lon)
  {
    Point(result.geometry.location.lat, result.geometry.location.lng)
  }

  /**
   * `bundle_result`: the formatted address (or `"<unknown>"`), its part
   * before the first comma, and the result's coordinates.
   */
  function BundleResult(result: GeocodeResult): (b: AddressBundle)
    ensures result.formattedAddress.Some? ==> b.fullAddress == result.formattedAddress.value
    ensures result.formattedAddress.None? ==> b.fullAddress == Unknown
    // the street address is the full address up to, not including, its first comma
    ensures b.address <= b.fullAddress
    ensures ',' !in b.address
    ensures |b.address| < |b.fullAddress| ==> b.fullAddress[|b.address|] == ','
    // the coordinates are those of `geometry.location`, latitude first
    ensures b.lat == result.geometry.location.lat && b.lon == result.geometry.location.lng
  {
    var full := result.formattedAddress.GetOr(Unknown);
    AddressBundle(FirstField(full, ','), result.geometry.location.lat, result.geometry.location.lng, full)
  }

  /** A bundle built from a comma-free address keeps it whole. */
  lemma BundleOfCommaFreeAddress(result: GeocodeResult)
    requires result.formattedAddress.Some? && ',' !in result.formattedAddress.value
    ensures BundleResult(result).address == result.formattedAddress.value
  {
  }

  /** The key of a component in the parts map: its types joined with `"/"`. */
  function ComponentKey(c: Component): (k: string)
    // a single type is its own key
    ensures |c.types| == 1 ==> k == c.types[0]
    // with several types, the key starts with the first type and a slash
    ensures |c.types| >= 2 ==> c.types[0] + "/" <= k
    ensures |c.types| == 0 ==> k == ""
  {
    Join('/', c.types)
  }

  /** A non-empty list of slash-free types can be read back from its key. */
  lemma ComponentKeySplits(c: Component)
    requires |c.types| >= 1
    requires forall i :: 0 <= i < |c.types| ==> '/' !in c.types[i]
    ensures Split(ComponentKey(c), '/') == c.types
  {
    SplitJoin(c.types, '/');
  }

  /** The name `address_parts_from_result` stores: `short_name` if `short`, else `long_name`. */
  function ComponentName(c: Component, short: bool): (name: string)
    ensures name == c.shortName || name == c.longName
    ensures short ==> name == c.shortName
    ensures !short ==> name == c.longName
  {
    if short then c.shortName else c.longName
  }

  /** No later component of `cs` has the key of `cs[i]`. */
  ghost predicate LastWithKey(cs: seq<Component>, i: int)
    requires 0 <= i < |cs|
  {
    forall j :: i < j < |cs| ==> ComponentKey(cs[j]) != ComponentKey(cs[i])
  }

  /** The keys of the components of `cs`. */
  function KeysOf(cs: seq<Component>): set<string> {
    set i | 0 <= i < |cs| :: ComponentKey(cs[i])
  }

  /** The dictionary comprehension over `address_components`, entries added in order. */
  function AddressParts(cs: seq<Component>, short: bool): (m: map<string, string>)
    // the last component's name is what its key holds, whatever came before
    ensures |cs| > 0 ==> ComponentKey(cs[|cs| - 1]) in m && m[ComponentKey(cs[|cs| - 1])] == ComponentName(cs[|cs| - 1], short)
    // and no key appears that no component carries
    ensures forall k :: k in m ==> exists i :: 0 <= i < |cs| && ComponentKey(cs[i]) == k
    decreases |cs|
  {
    if |cs| == 0 then map[]
    else
      var last := cs[|cs| - 1];
      AddressParts(cs[..|cs| - 1], short)[ComponentKey(last) := ComponentName(last, short)]
  }

  /** The keys of a non-empty list are those of all but its last component, plus the last one's. */
  lemma KeysOfSnoc(cs: seq<Component>)
    requires |cs| > 0
    ensures KeysOf(cs) == KeysOf(cs[..|cs| - 1]) + {ComponentKey(cs[|cs| - 1])}
  {
    var init := cs[..|cs| - 1];
    forall k | k in KeysOf(cs)
      ensures k in KeysOf(init) + {ComponentKey(cs[|cs| - 1])}
    {
      var i :| 0 <= i < |cs| && k == ComponentKey(cs[i]);
      if i < |cs| - 1 {
        assert init[i] == cs[i];
      }
    }
    forall k | k in KeysOf(init) + {ComponentKey(cs[|cs| - 1])}
      ensures k in KeysOf(cs)
    {
      if k != ComponentKey(cs[|cs| - 1]) {
        var i :| 0 <= i < |init| && k == ComponentKey(init[i]);
        assert cs[i] == init[i];
      }
    }
  }

  /** The comprehension has exactly one entry per distinct component key. */
  lemma {:induction false} AddressPartsKeys(cs: seq<Component>, short: bool)
    ensures AddressParts(cs, short).Keys == KeysOf(cs)
    decreases |cs|
  {
    if |cs| > 0 {
      AddressPartsKeys(cs[..|cs| - 1], short);
      KeysOfSnoc(cs);
    }
  }

  /** Each key holds the name of the last component carrying it: later components win. */
  lemma {:induction false} AddressPartsLastWins(cs: seq<Component>, short: bool, i: int)
    requires 0 <= i < |cs| && LastWithKey(cs, i)
    ensures ComponentKey(cs[i]) in AddressParts(cs, short)
    ensures AddressParts(cs, short)[ComponentKey(cs[i])] == ComponentName(cs[i], short)
    decreases |cs|
  {
    if i < |cs| - 1 {
      var init := cs[..|cs| - 1];
      assert init[i] == cs[i];
      assert ComponentKey(cs[|cs| - 1]) != ComponentKey(cs[i]);
      assert LastWithKey(init, i) by {
        forall j | i < j < |init|
          ensures ComponentKey(init[j]) != ComponentKey(init[i])
        {
          assert init[j] == cs[j];
        }
      }
      AddressPartsLastWins(init, short, i);
    }
  }

  /** The components a result lists, none when the key is absent. */
  function ComponentsOf(result: GeocodeResult): (cs: seq<Component>)
    ensures result.addressComponents.None? ==> cs == []
    ensures result.addressComponents.Some? ==> cs == result.addressComponents.value
  {
    result.addressComponents.GetOr([])
  }

  /** `address_parts_from_result(result, short)`. */
  function AddressPartsFromResult(result: GeocodeResult, short: bool): (m: map<string, string>)
    ensures result.addressComponents.None? ==> m == map[]
    ensures m.Keys == KeysOf(ComponentsOf(result))
    ensures forall i :: 0 <= i < |ComponentsOf(result)| && LastWithKey(ComponentsOf(result), i) ==>
      m[ComponentKey(ComponentsOf(result)[i])] == ComponentName(ComponentsOf(result)[i], short)
  {
    var cs := ComponentsOf(result);
    AddressPartsKeys(cs, short);
    assert forall i :: 0 <= i < |cs| && LastWithKey(cs, i) ==>
      AddressParts(cs, short)[ComponentKey(cs[i])] == ComponentName(cs[i], short) by {
      forall i | 0 <= i < |cs| && LastWithKey(cs, i)
        ensures AddressParts(cs, short)[ComponentKey(cs[i])] == ComponentName(cs[i], short)
      {
        AddressPartsLastWins(cs, short, i);
      }
    }
    AddressParts(cs, short)
  }

  /** The parts map is empty exactly when there are no components. */
  lemma AddressPartsEmpty(result: GeocodeResult, short: bool)
    ensures |AddressPartsFromResult(result, short)| == 0 <==> |ComponentsOf(result)| == 0
  {
    var cs := ComponentsOf(result);
    if |cs| > 0 {
      assert ComponentKey(cs[0]) in AddressPartsFromResult(result, short);
    }
  }

  /** A later component with the same key overwrites an earlier one. */
  lemma AddressPartsLaterWins(cs: seq<Component>, c: Component, short: bool)
    ensures ComponentKey(c) in AddressParts(cs + [c], short)
    ensures AddressParts(cs + [c], short)[ComponentKey(c)] == ComponentName(c, short)
  {
    assert (cs + [c])[..|cs|] == cs;
  }

  const StreetNumber: string := "street_number"
  const Route: string := "route"
  const Locality: string := "locality/political"

  /** `parts[key] + suffix` when `key` is present, nothing otherwise. */
  function Piece(parts: map<string, string>, key: string, suffix: string): string {
    if key in parts then parts[key] + suffix else ""
  }

  /** The length a piece contributes to the assembled address. */
  function PieceLength(parts: map<string, string>, key: string, suffix: string): nat {
    if key in parts then |parts[key]| + |suffix| else 0
  }

  /**
   * The string `canonical_address` builds from a parts map: street number
   * and a space, route and a comma-space, then the locality, each piece
   * present only when its key is.
   */
  function AssembleAddress(parts: map<string, string>): (a: string)
    ensures |a| == PieceLength(parts, StreetNumber, " ") + PieceLength(parts, Route, ", ")
                   + PieceLength(parts, Locality, "")
    ensures StreetNumber in parts ==> parts[StreetNumber] + " " <= a
    ensures StreetNumber in parts && Route in parts ==> parts[StreetNumber] + " " + parts[Route] + ", " <= a
    ensures StreetNumber !in parts && Route in parts ==> parts[Route] + ", " <= a
    ensures Locality in parts ==> a[|a| - |parts[Locality]|..] == parts[Locality]
    ensures StreetNumber !in parts && Route !in parts && Locality !in parts ==> a == ""
  {
    Piece(parts, StreetNumber, " ") + Piece(parts, Route, ", ") + Piece(parts, Locality, "")
  }

  /** With all three parts present the address reads "number route, locality". */
  lemma AssembleAddressComplete(parts: map<string, string>)
    requires StreetNumber in parts && Route in parts && Locality in parts
    ensures AssembleAddress(parts) == parts[StreetNumber] + " " + parts[Route] + ", " + parts[Locality]
  {
  }

  /**
   * `canonical_address`: `vicinity` verbatim when the result has one;
   * otherwise the address assembled from the long-name parts, or `None`
   * when there are no parts at all.
   */
  function CanonicalAddress(result: GeocodeResult): (r: Option<string>)
    ensures result.vicinity.Some? ==> r == result.vicinity
    ensures result.vicinity.None? ==> (r.None? <==> |ComponentsOf(result)| == 0)
    ensures result.vicinity.None? && r.Some? ==> r.value == AssembleAddress(AddressPartsFromResult(result, false))
  {
    if result.vicinity.Some? then result.vicinity
    else
      var parts := AddressPartsFromResult(result, false);
      AddressPartsEmpty(result, false);
      if |parts| > 0 then Some(AssembleAddress(parts)) else None
  }

  /** The `vicinity` answer does not look at the components at all. */
  lemma CanonicalAddressIgnoresComponents(result: GeocodeResult, cs: Option<seq<Component>>)
    requires result.vicinity.Some?
    ensures CanonicalAddress(result.(addressComponents := cs)) == CanonicalAddress(result)
  {
  }

  /** Components that name none of the three wanted keys give the empty string, not `None`. */
  lemma CanonicalAddressWithoutKnownParts(result: GeocodeResult)
    requires result.vicinity.None? && |ComponentsOf(result)| > 0
    requires forall i :: 0 <= i < |ComponentsOf(result)| ==>
      ComponentKey(ComponentsOf(result)[i]) !in {StreetNumber, Route, Locality}
    ensures CanonicalAddress(result) == Some("")
  {
  }

  /** The components of a typical geocoder answer for a street address. */
  function ExampleComponents(): seq<Component> {
    [Component(["street_number"], "1600", "1600"),
     Component(["route"], "Amphitheatre Parkway", "Amphitheatre Pkwy"),
     Component(["locality", "political"], "Mountain View", "Mountain View")]
  }

  lemma ExampleKeys()
    ensures ComponentKey(ExampleComponents()[0]) == StreetNumber
    ensures ComponentKey(ExampleComponents()[1]) == Route
    ensures ComponentKey(ExampleComponents()[2]) == Locality
  {
    assert Join('/', ["locality", "political"]) == "locality" + ['/'] + Join('/', ["political"]);
  }

  lemma ExampleParts()
    ensures StreetNumber in AddressParts(ExampleComponents(), false)
    ensures Route in AddressParts(ExampleComponents(), false)
    ensures Locality in AddressParts(ExampleComponents(), false)
    ensures AddressParts(ExampleComponents(), false)[StreetNumber] == "1600"
    ensures AddressParts(ExampleComponents(), false)[Route] == "Amphitheatre Parkway"
    ensures AddressParts(ExampleComponents(), false)[Locality] == "Mountain View"
  {
    var cs := ExampleComponents();
    ExampleKeys();
    AddressPartsLastWins(cs, false, 0);
    AddressPartsLastWins(cs, false, 1);
    AddressPartsLastWins(cs, false, 2);
  }

  /** A typical geocoder answer: the locality's two types join into the `locality/political` key. */
  lemma CanonicalAddressExample()
    ensures CanonicalAddress(GeocodeResult(None, Geometry(LatLng(37.42, -122.08)), None, Some(ExampleComponents())))
      == Some("1600" + " " + "Amphitheatre Parkway" + ", " + "Mountain View")
  {
    var result := GeocodeResult(None, Geometry(LatLng(37.42, -122.08)), None, Some(ExampleComponents()));
    var parts := AddressParts(ExampleComponents(), false);
    ExampleParts();
    AssembleAddressComplete(parts);
    assert AddressPartsFromResult(result, false) == parts;
  }
}
