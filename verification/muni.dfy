/**
  The feed client of src/muni.ts: how a response of the vehicle-location and
  route-list feed (its HTTP status and its already decoded JSON body) becomes
  a result or a thrown error. The HTTP request itself is not modelled; the
  response is an input.
 */
module Muni {
  import opened Wrappers
  import opened Decimal

  /** The only status the client accepts. */
  const StatusOk: int := 200

  /** A vehicle entry exactly as the feed sends it: every field a string. */
  datatype RawVehicleLocation = RawVehicleLocation(
    id: string,
    lon: string,
    routeTag: string,
    predictable: string,
    speedKmHr: string,
    heading: string,
    lat: string,
    secsSinceReport: string)

  /** The double `parseFloat(text)` yields. Floating-point parsing is not
      modelled, so the value is known only by the text it came from. That is
      finer than a double: "-122.4" and "-122.40" are distinct here, though
      JavaScript parses both to the same number. */
  datatype Float = ParsedFloat(text: string)

  /** A parsed vehicle entry. Integer fields hold `parseInt`'s result, so
      `None` is NaN. */
  datatype VehicleLocation = VehicleLocation(
    id: string,
    lon: Float,
    routeTag: string,
    predictable: bool,
    speedKmHr: Option<int>,
    heading: Option<int>,
    lat: Float,
    secsSinceReport: Option<int>)

  /** The feed's application-level error object. */
  datatype FeedErrorObject = FeedErrorObject(content: string, shouldRetry: string)

  /** A decoded vehicle-locations body. `lastTime` holds the string at
      `lastTime.time`, or `None` when the `lastTime` object is absent. */
  datatype VehicleLocationsBody = VehicleLocationsBody(
    vehicle: Option<seq<RawVehicleLocation>>,
    lastTime: Option<string>,
    error: Option<FeedErrorObject>)

  datatype Route = Route(tag: string, title: string)

  datatype RouteListBody = RouteListBody(route: Option<seq<Route>>)

  /** Why a fetch throws. */
  datatype FetchError =
    | BadStatus(status: int)     // any status but 200: a rejected request, or "could not get ..."
    | FeedError(content: string) // "could not get vehicle locations: <content>"
    | NoLastTime                 // TypeError reading `time` of an absent `lastTime`

  /** What a successful vehicle-locations fetch returns. */
  datatype VehicleLocations = VehicleLocations(locations: seq<VehicleLocation>, lastTime: Option<int>)

  /** `parseRawVehicleLocation`, as written: `predictable` is computed from
      the `lon` field, not from the `predictable` field. */
  function ParseRawVehicleLocation(raw: RawVehicleLocation): (loc: VehicleLocation)
    ensures loc.id == raw.id && loc.routeTag == raw.routeTag
    ensures loc.lon == ParsedFloat(raw.lon) && loc.lat == ParsedFloat(raw.lat)
    ensures loc.predictable <==> raw.lon == "true"
    ensures loc.speedKmHr == ParseInt(raw.speedKmHr)
    ensures loc.heading == ParseInt(raw.heading)
    ensures loc.secsSinceReport == ParseInt(raw.secsSinceReport)
  {
    VehicleLocation(
      raw.id,
      ParsedFloat(raw.lon),
      raw.routeTag,
      raw.lon == "true",
      ParseInt(raw.speedKmHr),
      ParseInt(raw.heading),
      ParsedFloat(raw.lat),
      ParseInt(raw.secsSinceReport))
  }

  /** The intended parser: `predictable` read from its own field. */
  function ParseRawVehicleLocationCorrected(raw: RawVehicleLocation): (loc: VehicleLocation)
    ensures loc.predictable <==> raw.predictable == "true"
    ensures loc == ParseRawVehicleLocation(raw).(predictable := raw.predictable == "true")
  {
    ParseRawVehicleLocation(raw).(predictable := raw.predictable == "true")
  }

  lemma TrueIsNotANumber()
    ensures ParseInt("true").None?
  {
    var s := "true";
    assert s[0] == 't';
    ParseIntOfNonNumeric(s);
  }

  /** Whenever `lon` holds a number, as it always does in a well-formed entry,
      the as-written parser reports the vehicle unpredictable, whatever the
      `predictable` field says. */
  lemma NumericLonIsNeverPredictable(raw: RawVehicleLocation)
    requires ParseInt(raw.lon).Some?
    ensures !ParseRawVehicleLocation(raw).predictable
  {
    if raw.lon == "true" {
      TrueIsNotANumber();
    }
  }

  /** The two parsers agree exactly when `lon` and `predictable` agree on
      being "true"; otherwise only `predictable` differs. */
  lemma ParsersDifferOnlyInPredictable(raw: RawVehicleLocation)
    ensures ParseRawVehicleLocation(raw) == ParseRawVehicleLocationCorrected(raw)
            <==> ((raw.lon == "true") == (raw.predictable == "true"))
    ensures ParseRawVehicleLocation(raw).(predictable := false)
            == ParseRawVehicleLocationCorrected(raw).(predictable := false)
  {
  }

  /** A typical entry whose `predictable` field is "true": the as-written
      parser reports it unpredictable, the corrected one predictable. */
  lemma PredictableVehicleParsedUnpredictable()
    ensures var raw := RawVehicleLocation("1234", "-122.4", "N", "true", "12", "90", "37.7", "5");
            && !ParseRawVehicleLocation(raw).predictable
            && ParseRawVehicleLocationCorrected(raw).predictable
  {
    var raw := RawVehicleLocation("1234", "-122.4", "N", "true", "12", "90", "37.7", "5");
    assert raw.lon[1] == '1';
  }

  /** `parseRawVehicleLocation` mapped over the feed's entries. */
  function ParseAll(raws: seq<RawVehicleLocation>): (locs: seq<VehicleLocation>)
    ensures |locs| == |raws|
    ensures forall i :: 0 <= i < |raws| ==> locs[i] == ParseRawVehicleLocation(raws[i])
  {
    seq(|raws|, i requires 0 <= i < |raws| => ParseRawVehicleLocation(raws[i]))
  }

  /** `getRouteList` once the response has arrived: the `route` member on
      status 200, which may itself be absent; otherwise a thrown error. */
  function GetRouteList(status: int, body: RouteListBody): (r: Result<Option<seq<Route>>, FetchError>)
    ensures r.Success? <==> status == StatusOk
    ensures r.Success? ==> r.value == body.route
    ensures r.Failure? ==> r.error == BadStatus(status)
  {
    if status == StatusOk then Success(body.route) else Failure(BadStatus(status))
  }

  /** `getVehicleLocations` once the response has arrived. The `Error` check
      comes before the `vehicle` check, and `lastTime.time` is read before
      the entries are parsed, so a body without `lastTime` throws. */
  function GetVehicleLocations(status: int, body: VehicleLocationsBody): (r: Result<VehicleLocations, FetchError>)
    ensures status != StatusOk ==> r == Failure(BadStatus(status))
    ensures status == StatusOk && body.error.Some? ==> r == Failure(FeedError(body.error.value.content))
    ensures r.Success? <==> status == StatusOk && body.error.None? && body.lastTime.Some?
    ensures r.Success? ==> r.value.lastTime == ParseInt(body.lastTime.value)
    ensures r.Success? && body.vehicle.None? ==> r.value.locations == []
    ensures r.Success? && body.vehicle.Some? ==>
              && |r.value.locations| == |body.vehicle.value|
              && forall i :: 0 <= i < |body.vehicle.value| ==>
                   r.value.locations[i] == ParseRawVehicleLocation(body.vehicle.value[i])
  {
    if status != StatusOk then
      Failure(BadStatus(status))
    else if body.error.Some? then
      Failure(FeedError(body.error.value.content))
    else if body.lastTime.None? then
      Failure(NoLastTime)
    else
      var lastTime := ParseInt(body.lastTime.value);
      match body.vehicle
      case None => Success(VehicleLocations([], lastTime))
      case Some(raws) => Success(VehicleLocations(ParseAll(raws), lastTime))
  }

  /** The corrected parser mapped over the feed's entries. */
  function ParseAllCorrected(raws: seq<RawVehicleLocation>): (locs: seq<VehicleLocation>)
    ensures |locs| == |raws|
    ensures forall i :: 0 <= i < |raws| ==> locs[i] == ParseRawVehicleLocationCorrected(raws[i])
  {
    seq(|raws|, i requires 0 <= i < |raws| => ParseRawVehicleLocationCorrected(raws[i]))
  }

  /** `getVehicleLocations` with the corrected parser: it fails exactly
      when the as-written call does, with the same error, and reports the
      same `lastTime`; each entry differs at most in `predictable`, which
      now comes from its own field. */
  function GetVehicleLocationsCorrected(status: int, body: VehicleLocationsBody): (r: Result<VehicleLocations, FetchError>)
    ensures r.Failure? <==> GetVehicleLocations(status, body).Failure?
    ensures r.Failure? ==> r == GetVehicleLocations(status, body)
    ensures r.Success? ==>
              && r.value.lastTime == GetVehicleLocations(status, body).value.lastTime
              && |r.value.locations| == |GetVehicleLocations(status, body).value.locations|
              && forall i :: 0 <= i < |r.value.locations| ==>
                   r.value.locations[i]
                   == GetVehicleLocations(status, body).value.locations[i].(predictable := r.value.locations[i].predictable)
    ensures r.Success? && body.vehicle.Some? ==>
              forall i :: 0 <= i < |body.vehicle.value| ==>
                (r.value.locations[i].predictable <==> body.vehicle.value[i].predictable == "true")
  {
    if status != StatusOk then
      Failure(BadStatus(status))
    else if body.error.Some? then
      Failure(FeedError(body.error.value.content))
    else if body.lastTime.None? then
      Failure(NoLastTime)
    else
      var lastTime := ParseInt(body.lastTime.value);
      match body.vehicle
      case None => Success(VehicleLocations([], lastTime))
      case Some(raws) => Success(VehicleLocations(ParseAllCorrected(raws), lastTime))
  }

  /** An `Error` object makes the call throw whether or not entries are
      present; only the content of the error matters. */
  lemma ErrorWinsOverVehicles(body: VehicleLocationsBody, vehicles: Option<seq<RawVehicleLocation>>)
    requires body.error.Some?
    ensures GetVehicleLocations(StatusOk, body) == GetVehicleLocations(StatusOk, body.(vehicle := vehicles))
    ensures GetVehicleLocations(StatusOk, body).Failure?
  {
  }

  /** A body whose `lastTime.time` is the decimal spelling of `t` reports
      exactly `t`, with or without entries. */
  lemma LastTimeRoundTrip(body: VehicleLocationsBody, t: nat)
    requires body.error.None? && body.lastTime == Some(ToDecimal(t))
    ensures GetVehicleLocations(StatusOk, body).Success?
    ensures GetVehicleLocations(StatusOk, body).value.lastTime == Some(t)
  {
    ParseIntOfDecimal(t);
  }

  /** Every integer field written as a decimal numeral is read back. */
  lemma IntegerFieldsRoundTrip(raw: RawVehicleLocation, speed: nat, heading: nat, secs: nat)
    requires raw.speedKmHr == ToDecimal(speed)
    requires raw.heading == ToDecimal(heading)
    requires raw.secsSinceReport == ToDecimal(secs)
    ensures ParseRawVehicleLocation(raw).speedKmHr == Some(speed)
    ensures ParseRawVehicleLocation(raw).heading == Some(heading)
    ensures ParseRawVehicleLocation(raw).secsSinceReport == Some(secs)
  {
    ParseIntOfDecimal(speed);
    ParseIntOfDecimal(heading);
    ParseIntOfDecimal(secs);
  }
}
