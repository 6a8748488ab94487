/** `Utils.prepare_flight_list` (main.py): each stored flight becomes a display
    record. Its trail is fused into a current fix and a six-point window, the
    fix supplies position, altitude, speed, heading and time, the route labels
    are formatted, the flyby gate is run, and missing display fields become "-".
    Unit conversion, reverse geocoding and geodesy are supplied by the caller. */
module Prepare {
  import opened Values
  import opened Trails
  import opened TrailFusion
  import opened Heading
  import opened Flyby
  import opened Display

  /** What the preparation consults outside the model: the feet-to-metres and
      knots-to-km/h conversions (both rounded), the city at a position, the
      geodesy of the flyby gate and the exponential heading weights. */
  datatype Collaborators = Collaborators(
    feetToMeters: int -> int,
    knotsToKmh: int -> int,
    cityAt: Coord -> string,
    geo: Geodesy,
    expw: int -> Positive)

  /** The monitored origin and its two radii in km, and whether a flight closer
      to its destination than to the origin is scored anyway. */
  datatype Config = Config(origin: Coord, originRadiusKm: real, flybyRadiusKm: real, ignoreAirportProximity: bool)

  /** The bookkeeping keys that are dropped from the display record. */
  const RemoveKeys: set<string> :=
    {"flight_id", "trail_data", "trail_data_details", "last_fetch_timestamp", "last_fetch_timestamp_details"}

  /** The keys the preparation computes from the fix: its position and
      motion, the route labels and the distance, and the window with its time. */
  const PositionKeys: set<string> := {"altitude", "speed", "heading", "location_coords", "location"}
  const RouteKeys: set<string> := {"origin", "destination", "distance_from_origin"}
  const WindowKeys: set<string> := {"timestamp", "latest_trail_data"}
  const FixKeys: set<string> := PositionKeys + RouteKeys + WindowKeys

  /** The keys that carry the flyby gate's output. */
  const FlybyKeys: set<string> := {
    "flyby_chance", "flyby_info", "flyby_eta",
    "is_closer_to_airport_than_origin", "is_heading_towards_origin", "will_pass_within_radius"}

  const ComputedKeys: set<string> := FixKeys + FlybyKeys

  /** A stored trail value read with `or []`: a falsy value is the empty list,
      a list is itself, and anything else cannot be concatenated. */
  function TrailList(v: Value): Option<seq<TrailPoint>> {
    if !Truthy(v) then Some([])
    else if v.Trail? then Some(v.points)
    else None
  }

  /** A text field; values that are not strings read as missing. */
  function Text(v: Value): Option<string> {
    if v.Str? then Some(v.s) else None
  }

  /** The destination airport position, when the record holds one. */
  function DestinationCoords(v: Value): Option<Coord> {
    if v.Coords? then Some(v.c) else None
  }

  function Dash(t: Option<string>): Value {
    if t.Some? then Str(t.value) else Str("-")
  }

  /** The position reported for a fix: only when latitude and longitude are
      both non-zero. */
  function FixCoords(p: TrailPoint): Option<Coord> {
    if p.lat != 0.0 && p.lng != 0.0 then Some(Coord(p.lat, p.lng)) else None
  }

  /** The position and motion of the fix, converted by the collaborators. */
  function PositionFields(fix: Fix, col: Collaborators): (c: Record)
    ensures c.Keys == PositionKeys
  {
    var p := fix.lastKnown;
    var coords := FixCoords(p);
    map[
      "altitude" := Int(col.feetToMeters(p.alt)),
      "speed" := Int(col.knotsToKmh(p.spd)),
      "heading" := (if p.hd.Some? then Real(p.hd.value) else Null),
      "location_coords" := (if coords.Some? then Coords(coords.value) else Null),
      "location" := Str(col.cityAt(Coord(p.lat, p.lng)))]
  }

  /** The route labels of the stored record and the distance of the fix from
      the monitored origin. */
  function RouteFields(flight: Record, fix: Fix, cfg: Config, col: Collaborators): (c: Record)
    ensures c.Keys == RouteKeys
  {
    var p := fix.lastKnown;
    map[
      "origin" := Str(FormatLocation(Text(Get(flight, "origin_city")), Text(Get(flight, "origin_airport_iata")))),
      "destination" := Str(FormatLocation(Text(Get(flight, "destination_city")),
                                          Text(Get(flight, "destination_airport_iata")))),
      "distance_from_origin" := Real(col.geo.distanceKm(cfg.origin, Coord(p.lat, p.lng)))]
  }

  /** The recent window and the time of its newest point. */
  function WindowFields(fix: Fix): (c: Record)
    ensures c.Keys == WindowKeys
    ensures c["latest_trail_data"] == Trail(fix.relevant)
    ensures c["timestamp"] == Time(fix.lastKnown.ts)
  {
    map["timestamp" := Time(fix.lastKnown.ts), "latest_trail_data" := Trail(fix.relevant)]
  }

  /** The fields computed from the fix and the stored route. */
  function FixFields(flight: Record, fix: Fix, cfg: Config, col: Collaborators): (c: Record)
    ensures c.Keys == FixKeys
    ensures c["latest_trail_data"] == Trail(fix.relevant)
    ensures c["timestamp"] == Time(fix.lastKnown.ts)
  {
    PositionFields(fix, col) + RouteFields(flight, fix, cfg, col) + WindowFields(fix)
  }

  /** The flyby gate run on the freshly computed fields. */
  function FlybyOf(flight: Record, fix: Fix, cfg: Config, col: Collaborators): FlybyData {
    var p := fix.lastKnown;
    var input := FlybyInput(FixCoords(p), p.hd, Some(col.knotsToKmh(p.spd) as real),
                            Some(col.geo.distanceKm(cfg.origin, Coord(p.lat, p.lng))), Some(p.ts), fix.relevant,
                            DestinationCoords(Get(flight, "destination_airport_coords")));
    ProcessFlybyData(input, col.geo, col.expw, cfg.origin, cfg.originRadiusKm, cfg.flybyRadiusKm,
                     cfg.ignoreAirportProximity)
  }

  /** The gate's output as record fields, "-" where it computed nothing. */
  function FlybyFields(fly: FlybyData): (c: Record)
    ensures c.Keys == FlybyKeys
    ensures c["flyby_chance"] == (if fly.chance.Some? then Real(fly.chance.value.value) else Str("-"))
    ensures c["flyby_info"] == Dash(fly.info)
    ensures c["flyby_eta"] == (if fly.eta.Some? then Time(fly.eta.value) else Str("-"))
    ensures c["is_closer_to_airport_than_origin"] == Bool(fly.closerToAirport)
    ensures c["is_heading_towards_origin"] == Bool(fly.headingTowards)
    ensures c["will_pass_within_radius"] == Bool(fly.willPass)
  {
    map[
      "flyby_chance" := (if fly.chance.Some? then Real(fly.chance.value.value) else Str("-")),
      "flyby_info" := Dash(fly.info),
      "flyby_eta" := (if fly.eta.Some? then Time(fly.eta.value) else Str("-")),
      "is_closer_to_airport_than_origin" := Bool(fly.closerToAirport),
      "is_heading_towards_origin" := Bool(fly.headingTowards),
      "will_pass_within_radius" := Bool(fly.willPass)]
  }

  /** The stored fields that survive, without the bookkeeping keys. */
  function Kept(flight: Record): (c: Record)
    ensures c.Keys == flight.Keys - RemoveKeys
    ensures forall k :: k in c ==> c[k] == flight[k]
  {
    map k | k in flight && k !in RemoveKeys :: flight[k]
  }

  /** The record of one flight once its fix is known. */
  function PreparedRecord(flight: Record, fix: Fix, cfg: Config, col: Collaborators): Record {
    DashForNone(Kept(flight) + FixFields(flight, fix, cfg, col) + FlybyFields(FlybyOf(flight, fix, cfg, col)))
  }

  /** One iteration of the loop: None where the source raises, that is when a
      stored trail is neither a list nor empty, or when no point is recent. */
  function PrepareFlight(flight: Record, now: int, cfg: Config, col: Collaborators): (r: Option<Record>) {
    var trail := TrailList(Get(flight, "trail_data"));
    var details := TrailList(Get(flight, "trail_data_details"));
    if trail.None? || details.None? then None
    else
      match Fused(trail.value, details.value, now)
      case None => None
      case Some(fix) => Some(PreparedRecord(flight, fix, cfg, col))
  }

  /** Preparation fails exactly on a malformed stored trail or when no stored
      point is within six minutes of now. */
  lemma PrepareFlightFailsIff(flight: Record, now: int, cfg: Config, col: Collaborators)
    ensures var trail := TrailList(Get(flight, "trail_data"));
      var details := TrailList(Get(flight, "trail_data_details"));
      PrepareFlight(flight, now, cfg, col).None? <==>
        trail.None? || details.None?
        || forall i :: 0 <= i < |trail.value + details.value| ==>
             (trail.value + details.value)[i].ts < now - StalenessSeconds
  {
    var trail := TrailList(Get(flight, "trail_data"));
    var details := TrailList(Get(flight, "trail_data_details"));
    if trail.Some? && details.Some? {
      FusedFailsIffNothingRecent(trail.value, details.value, now);
    }
  }

  lemma RemoveKeysNotComputed()
    ensures RemoveKeys !! PositionKeys && RemoveKeys !! RouteKeys && RemoveKeys !! WindowKeys
    ensures RemoveKeys !! FlybyKeys
  {
  }

  lemma DisplayFieldsNotFixed()
    ensures DisplayFields !! PositionKeys && DisplayFields !! RouteKeys && DisplayFields !! WindowKeys
  {
  }

  lemma DisplayFieldsNotFlyby()
    ensures DisplayFields !! FlybyKeys
  {
  }

  lemma FixKeysNotFlyby()
    ensures PositionKeys !! FlybyKeys && RouteKeys !! FlybyKeys && WindowKeys !! FlybyKeys
  {
  }

  /** The dropped, displayed and computed key groups do not overlap. */
  lemma KeySetsDisjoint()
    ensures RemoveKeys !! ComputedKeys && DisplayFields !! ComputedKeys && FixKeys !! FlybyKeys
  {
    RemoveKeysNotComputed();
    DisplayFieldsNotFixed();
    DisplayFieldsNotFlyby();
    FixKeysNotFlyby();
  }

  /** The record holds the surviving stored keys and the computed ones, and
      never a bookkeeping key. */
  lemma PreparedRecordKeys(flight: Record, fix: Fix, cfg: Config, col: Collaborators)
    ensures var r := PreparedRecord(flight, fix, cfg, col);
      && r.Keys == (flight.Keys - RemoveKeys) + ComputedKeys
      && (forall k :: k in RemoveKeys ==> k !in r)
  {
    KeySetsDisjoint();
  }

  /** A stored field that is neither dropped nor recomputed is kept, with "-"
      for a display field holding None; no display field is left holding None. */
  lemma PreparedRecordKeepsFields(flight: Record, fix: Fix, cfg: Config, col: Collaborators)
    ensures var r := PreparedRecord(flight, fix, cfg, col);
      && (forall k :: k in flight && k !in RemoveKeys && k !in ComputedKeys ==>
            r[k] == (if k in DisplayFields && flight[k] == Null then Str("-") else flight[k]))
      && (forall k :: k in DisplayFields && k in r ==> r[k] != Null)
  {
    var all := Kept(flight) + FixFields(flight, fix, cfg, col) + FlybyFields(FlybyOf(flight, fix, cfg, col));
    DashForNoneClears(all);
  }

  /** The record carries the window and the fix's time unchanged. */
  lemma PreparedRecordWindow(flight: Record, fix: Fix, cfg: Config, col: Collaborators)
    ensures var r := PreparedRecord(flight, fix, cfg, col);
      r["latest_trail_data"] == Trail(fix.relevant) && r["timestamp"] == Time(fix.lastKnown.ts)
  {
    KeySetsDisjoint();
    assert "latest_trail_data" in FixKeys && "timestamp" in FixKeys;
  }

  /** The record carries the gate's output. */
  lemma PreparedRecordFlyby(flight: Record, fix: Fix, cfg: Config, col: Collaborators)
    ensures var r := PreparedRecord(flight, fix, cfg, col);
      r["flyby_chance"] == FlybyFields(FlybyOf(flight, fix, cfg, col))["flyby_chance"]
      && r["flyby_info"] == FlybyFields(FlybyOf(flight, fix, cfg, col))["flyby_info"]
      && r["flyby_eta"] == FlybyFields(FlybyOf(flight, fix, cfg, col))["flyby_eta"]
      && r["is_closer_to_airport_than_origin"] == FlybyFields(FlybyOf(flight, fix, cfg, col))["is_closer_to_airport_than_origin"]
      && r["is_heading_towards_origin"] == FlybyFields(FlybyOf(flight, fix, cfg, col))["is_heading_towards_origin"]
      && r["will_pass_within_radius"] == FlybyFields(FlybyOf(flight, fix, cfg, col))["will_pass_within_radius"]
  {
    KeySetsDisjoint();
    assert "flyby_chance" in FlybyKeys && "flyby_info" in FlybyKeys && "flyby_eta" in FlybyKeys;
    assert "is_heading_towards_origin" in FlybyKeys && "will_pass_within_radius" in FlybyKeys;
    assert "is_closer_to_airport_than_origin" in FlybyKeys;
  }

  /** A prepared record drops the bookkeeping keys, carries the fused window
      (one to six recent points, strictly newest first) and the fix's time, and
      keeps every other stored field, with "-" for a missing display field. */
  lemma PreparedRecordSpec(flight: Record, now: int, cfg: Config, col: Collaborators)
    requires PrepareFlight(flight, now, cfg, col).Some?
    ensures var r := PrepareFlight(flight, now, cfg, col).value;
      && r.Keys == (flight.Keys - RemoveKeys) + ComputedKeys
      && (forall k :: k in RemoveKeys ==> k !in r)
      && r["latest_trail_data"].Trail?
      && var w := r["latest_trail_data"].points;
      && 1 <= |w| <= HistoryWindow && StrictlyDescending(w)
      && (forall k :: 0 <= k < |w| ==> w[k].ts >= now - StalenessSeconds)
      && r["timestamp"] == Time(w[0].ts)
      && (forall k :: k in flight && k !in RemoveKeys && k !in ComputedKeys ==>
            r[k] == (if k in DisplayFields && flight[k] == Null then Str("-") else flight[k]))
      && (forall k :: k in DisplayFields && k in r ==> r[k] != Null)
  {
    var trail := TrailList(Get(flight, "trail_data")).value;
    var details := TrailList(Get(flight, "trail_data_details")).value;
    FusedWindowOrdered(trail, details, now);
    var fix := Fused(trail, details, now).value;
    PreparedRecordKeys(flight, fix, cfg, col);
    PreparedRecordKeepsFields(flight, fix, cfg, col);
    PreparedRecordWindow(flight, fix, cfg, col);
  }

  /** The gate's guarantees carried over to the record fields. */
  lemma FlybyFieldsGated(fly: FlybyData, ignoreAirportProximity: bool)
    requires fly.info.Some? <==> fly.chance.Some?
    requires fly.eta.Some? ==> fly.chance.Some?
    requires fly.chance.Some? ==> fly.headingTowards && fly.willPass
    requires fly.chance.Some? ==> !fly.closerToAirport || ignoreAirportProximity
    requires fly.chance.Some? ==> 0.15 <= fly.chance.value.value <= 1.0
    ensures var c := FlybyFields(fly);
      && (c["flyby_chance"] == Str("-") ==> c["flyby_info"] == Str("-") && c["flyby_eta"] == Str("-"))
      && (c["flyby_chance"].Real? ==> 0.15 <= c["flyby_chance"].r <= 1.0)
      && (c["flyby_chance"].Real? ==> c["is_heading_towards_origin"] == Bool(true)
                                      && c["will_pass_within_radius"] == Bool(true))
      && (c["flyby_chance"].Real? ==> c["is_closer_to_airport_than_origin"] == Bool(false) || ignoreAirportProximity)
  {
  }

  /** The flyby fields of a prepared record are "-" unless the gate let the
      flight through: a numeric chance lies in [0.15, 1] and comes with both
      gate verdicts true and with the airport check passed or switched off,
      and without a chance there is neither a description nor an ETA. */
  lemma PreparedFlybyGated(flight: Record, fix: Fix, cfg: Config, col: Collaborators)
    ensures var r := PreparedRecord(flight, fix, cfg, col);
      && (r["flyby_chance"] == Str("-") ==> r["flyby_info"] == Str("-") && r["flyby_eta"] == Str("-"))
      && (r["flyby_chance"].Real? ==> 0.15 <= r["flyby_chance"].r <= 1.0)
      && (r["flyby_chance"].Real? ==> r["is_heading_towards_origin"] == Bool(true)
                                      && r["will_pass_within_radius"] == Bool(true))
      && (r["flyby_chance"].Real? ==> r["is_closer_to_airport_than_origin"] == Bool(false) || cfg.ignoreAirportProximity)
  {
    PreparedRecordFlyby(flight, fix, cfg, col);
    FlybyFieldsGated(FlybyOf(flight, fix, cfg, col), cfg.ignoreAirportProximity);
  }

  /** The three outcomes of one iteration. */
  lemma PrepareFlightCases(flight: Record, now: int, cfg: Config, col: Collaborators)
    ensures var trail := TrailList(Get(flight, "trail_data"));
      var details := TrailList(Get(flight, "trail_data_details"));
      var prep := Preparer(cfg, col);
      && (trail.None? || details.None? ==> prep(flight, now).None?)
      && (trail.Some? && details.Some? && Fused(trail.value, details.value, now).None? ==> prep(flight, now).None?)
      && (trail.Some? && details.Some? && Fused(trail.value, details.value, now).Some? ==>
            prep(flight, now) == Some(PreparedRecord(flight, Fused(trail.value, details.value, now).value, cfg, col)))
  {
  }

  /** The per-flight step as a value the list function can apply. */
  function Preparer(cfg: Config, col: Collaborators): (Record, int) -> Option<Record> {
    (flight: Record, now: int) => PrepareFlight(flight, now, cfg, col)
  }

  /** All flights prepared, or None when any of them cannot be. The clock is
      read once per flight. */
  function PrepareAll(flights: seq<Record>, clock: nat -> int, prep: (Record, int) -> Option<Record>)
    : (r: Option<seq<Record>>)
    ensures r.Some? ==> |r.value| == |flights|
    ensures r.Some? <==> forall i :: 0 <= i < |flights| ==> prep(flights[i], clock(i)).Some?
    ensures r.Some? ==> forall i :: 0 <= i < |flights| ==> r.value[i] == prep(flights[i], clock(i)).value
    decreases |flights|
  {
    if flights == [] then Some([])
    else
      var m := |flights| - 1;
      assert forall i :: 0 <= i < m ==> flights[..m][i] == flights[i];
      match PrepareAll(flights[..m], clock, prep)
      case None => None
      case Some(rs) =>
        match prep(flights[m], clock(m))
        case None => None
        case Some(r) => Some(rs + [r])
  }

  lemma PrepareAllStep(flights: seq<Record>, i: nat, clock: nat -> int, prep: (Record, int) -> Option<Record>,
                       out: seq<Record>, r: Record)
    requires i < |flights| && PrepareAll(flights[..i], clock, prep) == Some(out)
    requires prep(flights[i], clock(i)) == Some(r)
    ensures PrepareAll(flights[..i + 1], clock, prep) == Some(out + [r])
  {
    assert flights[..i + 1][..i] == flights[..i];
  }

  lemma PrepareAllFails(flights: seq<Record>, i: nat, clock: nat -> int, prep: (Record, int) -> Option<Record>)
    requires i < |flights| && prep(flights[i], clock(i)).None?
    ensures PrepareAll(flights, clock, prep).None?
  {
  }

  /** `prepare_flight_list`: the loop that fuses each flight's trail and
      appends its display record. */
  method PrepareFlightList(flights: seq<Record>, clock: nat -> int, cfg: Config, col: Collaborators)
    returns (prepared: Option<seq<Record>>)
    ensures prepared == PrepareAll(flights, clock, Preparer(cfg, col))
  {
    var prep := Preparer(cfg, col);
    var out: seq<Record> := [];
    var i := 0;
    while i < |flights|
      invariant 0 <= i <= |flights|
      invariant PrepareAll(flights[..i], clock, prep) == Some(out)
    {
      var flight := flights[i];
      var trail := TrailList(Get(flight, "trail_data"));
      var details := TrailList(Get(flight, "trail_data_details"));
      PrepareFlightCases(flight, clock(i), cfg, col);
      if trail.None? || details.None? {
        PrepareAllFails(flights, i, clock, prep);
        return None;
      }
      var fix := FuseTrail(trail.value, details.value, clock(i));
      if fix.None? {
        PrepareAllFails(flights, i, clock, prep);
        return None;
      }
      var record := PreparedRecord(flight, fix.value, cfg, col);
      PrepareAllStep(flights, i, clock, prep, out, record);
      out := out + [record];
      i := i + 1;
    }
    assert flights[..i] == flights;
    prepared := Some(out);
  }
}
