/** The flyby score of one aircraft and the gate that decides whether it is
    computed at all. Geodesy (bearings, great-circle distances, the cross-track
    test and the flyby description) is supplied by the caller as functions. */
module Flyby {
  import opened Values
  import opened Heading

  /** The three factors behind a score outside the flyby radius. */
  datatype Factors = Factors(proximity: real, heading: real, speed: real)

  /** A flyby chance; inside the flyby radius the factor labels are "-", which
      is `factors == None`. */
  datatype Chance = Chance(value: real, factors: Option<Factors>)

  const MinHeadingChance: real := 0.3
  const MinSpeedKmh: real := 200.0
  const MaxSpeedKmh: real := 700.0
  const ProximityWeight: real := 0.6
  const HeadingWeight: real := 0.25
  const SpeedWeight: real := 0.15

  /** Falls linearly from 1 at the flyby radius to 0 at the monitored radius,
      clamped to [0.1, 1]. */
  function ProximityFactor(distance: real, originR: real, flybyR: real): (p: real)
    requires originR != flybyR
    ensures 0.1 <= p <= 1.0
  {
    Clamp(1.0 - (distance - flybyR) / (originR - flybyR), 0.1, 1.0)
  }

  /** Rises linearly from 0 at 200 km/h to 1 at 700 km/h, clamped to [0.1, 1]. */
  function SpeedFactor(speed: real): (s: real)
    ensures 0.1 <= s <= 1.0
  {
    Clamp((speed - MinSpeedKmh) / (MaxSpeedKmh - MinSpeedKmh), 0.1, 1.0)
  }

  /** The straight-heading chance when at least two trail points exist, 0.3
      otherwise, and never below 0.3. */
  function HeadingFactor(trails: seq<TrailPoint>, expw: int -> Positive, maxChange: real): (h: real)
    requires maxChange != 0.0
    ensures MinHeadingChance <= h <= 1.0
    ensures |trails| <= 1 ==> h == MinHeadingChance
  {
    var raw := if |trails| > 1 then StraightHeadingChanceOf(trails, expw, maxChange) else MinHeadingChance;
    Clamp(raw, MinHeadingChance, 1.0)
  }

  /** `calculate_flyby_chance`. Within the flyby radius the chance is exactly 1
      and the factors are not reported; outside it the chance is the 0.6/0.25/0.15
      weighted sum of the three clamped factors, which lies in [0.15, 1]. */
  function FlybyChance(trails: seq<TrailPoint>, expw: int -> Positive, distance: real,
                       originR: real, flybyR: real, speed: real, maxChange: real): (c: Chance)
    requires distance <= flybyR || (originR != flybyR && maxChange != 0.0)
    ensures distance <= flybyR ==> c == Chance(1.0, None)
    ensures distance > flybyR ==>
      && c.factors.Some?
      && var f := c.factors.value;
      && 0.1 <= f.proximity <= 1.0
      && MinHeadingChance <= f.heading <= 1.0
      && 0.1 <= f.speed <= 1.0
      && (|trails| <= 1 ==> f.heading == MinHeadingChance)
      && c.value == ProximityWeight * f.proximity + HeadingWeight * f.heading + SpeedWeight * f.speed
      && 0.15 <= c.value <= 1.0
  {
    if distance <= flybyR then Chance(1.0, None)
    else
      var p := ProximityFactor(distance, originR, flybyR);
      var h := HeadingFactor(trails, expw, maxChange);
      var s := SpeedFactor(speed);
      var raw := ProximityWeight * p + HeadingWeight * h + SpeedWeight * s;
      Chance(Clamp(raw, 0.0, 1.0), Some(Factors(p, h, s)))
  }

  lemma ProximityFactorMonotone(d1: real, d2: real, originR: real, flybyR: real)
    requires originR > flybyR && d1 <= d2
    ensures ProximityFactor(d1, originR, flybyR) >= ProximityFactor(d2, originR, flybyR)
  {
    var w := originR - flybyR;
    assert (d1 - flybyR) / w <= (d2 - flybyR) / w;
  }

  lemma SpeedFactorMonotone(s1: real, s2: real)
    requires s1 <= s2
    ensures SpeedFactor(s1) <= SpeedFactor(s2)
  {
  }

  /** Coming closer never lowers the chance, across the flyby radius as well. */
  lemma FlybyChanceMonotoneInDistance(trails: seq<TrailPoint>, expw: int -> Positive, d1: real, d2: real,
                                      originR: real, flybyR: real, speed: real, maxChange: real)
    requires originR > flybyR && maxChange != 0.0 && d1 <= d2
    ensures FlybyChance(trails, expw, d1, originR, flybyR, speed, maxChange).value
         >= FlybyChance(trails, expw, d2, originR, flybyR, speed, maxChange).value
  {
    if d1 > flybyR {
      ProximityFactorMonotone(d1, d2, originR, flybyR);
    }
  }

  /** Flying faster never lowers the chance. */
  lemma FlybyChanceMonotoneInSpeed(trails: seq<TrailPoint>, expw: int -> Positive, distance: real,
                                   originR: real, flybyR: real, s1: real, s2: real, maxChange: real)
    requires distance <= flybyR || (originR != flybyR && maxChange != 0.0)
    requires s1 <= s2
    ensures FlybyChance(trails, expw, distance, originR, flybyR, s1, maxChange).value
         <= FlybyChance(trails, expw, distance, originR, flybyR, s2, maxChange).value
  {
    if distance > flybyR {
      SpeedFactorMonotone(s1, s2);
    }
  }

  /** A trail whose observed headings never change earns the full heading factor. */
  lemma SteadyTrailFullHeading(trails: seq<TrailPoint>, expw: int -> Positive, maxChange: real)
    requires HeadingsInRange(trails) && maxChange > 0.0
    requires HasHeadingPair(trails, PairCount(trails)) && Steady(trails, PairCount(trails))
    ensures HeadingFactor(trails, expw, maxChange) == 1.0
  {
    StraightHeadingChanceFull(trails, expw, maxChange);
  }

  /** 150 km out in a 200 km region with a 10 km flyby radius, at 450 km/h and
      with a single trail point: (5/19)·0.6 + 0.3·0.25 + 0.5·0.15. */
  lemma SingleTrailScore(p: TrailPoint, expw: int -> Positive)
    ensures FlybyChance([p], expw, 150.0, 200.0, 10.0, 450.0, 10.0)
         == Chance(117.0 / 380.0, Some(Factors(5.0 / 19.0, 0.3, 0.5)))
  {
    assert ProximityFactor(150.0, 200.0, 10.0) == 5.0 / 19.0;
    assert SpeedFactor(450.0) == 0.5;
  }

  // ---------------------------------------------------------------------------
  // The gate of `_process_flyby_data`

  /** The geodesy the gate consults: the bearing and the great-circle distance
      between two points, whether a track from a point passes within a radius of
      the origin, and the textual flyby description. */
  datatype Geodesy = Geodesy(
    bearing: (Coord, Coord) -> real,
    distanceKm: (Coord, Coord) -> real,
    passesWithin: (Coord, real, Coord, real) -> bool,
    flybyInfo: (Coord, real, Coord) -> string)

  /** The fields of a prepared flight that the gate reads; None stands for a
      missing or unconvertible value. `timestamp` is in seconds. */
  datatype FlybyInput = FlybyInput(
    location: Option<Coord>,
    heading: Option<real>,
    speed: Option<real>,
    distance: Option<real>,
    timestamp: Option<int>,
    trails: seq<TrailPoint>,
    destination: Option<Coord>)

  /** What the gate hands back; None is the "-" placeholder. */
  datatype FlybyData = FlybyData(
    info: Option<string>,
    chance: Option<Chance>,
    eta: Option<int>,
    closerToAirport: bool,
    headingTowards: bool,
    willPass: bool)

  const HeadingTolerance: real := 90.0
  const FlybyMaxAverageChange: real := 10.0

  /** `timestamp + timedelta(hours=distance / speed)` with the microseconds
      dropped: whole seconds, rounded down. */
  function EtaSeconds(timestamp: int, distance: real, speed: real): (eta: int)
    requires speed > 0.0
    ensures distance >= 0.0 ==> eta >= timestamp
    ensures (eta - timestamp) as real <= 3600.0 * distance / speed < (eta - timestamp) as real + 1.0
  {
    timestamp + (3600.0 * distance / speed).Floor
  }

  /** Scoring raises, and the except branch resets the outputs, when outside the
      flyby radius the speed is missing or the two radii coincide. */
  predicate ScoringFails(d: real, speed: Option<real>, originR: real, flybyR: real) {
    d > flybyR && (speed.None? || originR == flybyR)
  }

  /** `_process_flyby_data`. Nothing is computed unless position and heading are
      known; the score, the description and the ETA stay "-" unless the aircraft
      heads towards the origin, passes within the flyby radius, is not about to
      land at a nearer destination (or that check is off) and its distance is
      known; the ETA needs in addition a positive speed and a timestamp. */
  function ProcessFlybyData(f: FlybyInput, geo: Geodesy, expw: int -> Positive, origin: Coord,
                            originR: real, flybyR: real, ignoreAirportProximity: bool): (r: FlybyData)
    ensures r.headingTowards <==>
      f.location.Some? && f.heading.Some?
      && HeadingTowards(geo.bearing(f.location.value, origin), f.heading.value, HeadingTolerance)
    ensures r.willPass <==>
      f.location.Some? && f.heading.Some? && geo.passesWithin(f.location.value, f.heading.value, origin, flybyR)
    ensures r.closerToAirport <==>
      r.headingTowards && r.willPass && f.distance.Some? && f.destination.Some?
      && geo.distanceKm(f.location.value, f.destination.value) < f.distance.value
    ensures r.info.Some? <==> r.chance.Some?
    ensures r.chance.Some? <==>
      r.headingTowards && r.willPass && f.distance.Some?
      && (!r.closerToAirport || ignoreAirportProximity)
      && !ScoringFails(f.distance.value, f.speed, originR, flybyR)
    ensures r.chance.Some? ==> r.chance.value.value == 1.0 || 0.15 <= r.chance.value.value <= 1.0
    ensures r.chance.Some? ==>
      r.chance.value == FlybyChance(f.trails, expw, f.distance.value, originR, flybyR,
                                    if f.speed.Some? then f.speed.value else 0.0, FlybyMaxAverageChange)
    ensures r.info.Some? ==> r.info.value == geo.flybyInfo(f.location.value, f.heading.value, origin)
    ensures r.eta.Some? <==>
      r.chance.Some? && f.speed.Some? && f.speed.value > 0.0 && f.timestamp.Some?
    ensures r.eta.Some? ==> r.eta.value == EtaSeconds(f.timestamp.value, f.distance.value, f.speed.value)
  {
    var none := FlybyData(None, None, None, false, false, false);
    if f.location.None? || f.heading.None? then none
    else
      var loc, hd := f.location.value, f.heading.value;
      var isHeading := HeadingTowards(geo.bearing(loc, origin), hd, HeadingTolerance);
      var willPass := geo.passesWithin(loc, hd, origin, flybyR);
      var gated := none.(headingTowards := isHeading, willPass := willPass);
      if !(isHeading && willPass) then gated
      else if f.distance.None? then gated
      else
        var d := f.distance.value;
        var closer := f.destination.Some? && geo.distanceKm(loc, f.destination.value) < d;
        if closer && !ignoreAirportProximity then gated.(closerToAirport := closer)
        else if ScoringFails(d, f.speed, originR, flybyR) then gated.(closerToAirport := closer)
        else
          var chance := FlybyChance(f.trails, expw, d, originR, flybyR,
                                    if f.speed.Some? then f.speed.value else 0.0, FlybyMaxAverageChange);
          var eta := if f.speed.Some? && f.speed.value > 0.0 && f.timestamp.Some?
                     then Some(EtaSeconds(f.timestamp.value, d, f.speed.value)) else None;
          FlybyData(Some(geo.flybyInfo(loc, hd, origin)), Some(chance), eta, closer, isHeading, willPass)
  }

  /** An aircraft whose heading is more than 90 degrees off the bearing to the
      origin gets no prediction, however close it is. */
  lemma HeadingAwayGetsNoPrediction(f: FlybyInput, geo: Geodesy, expw: int -> Positive, origin: Coord,
                                    originR: real, flybyR: real, ignore: bool)
    requires f.location.Some? && f.heading.Some?
    requires AngularDifference(geo.bearing(f.location.value, origin), f.heading.value) > HeadingTolerance
    ensures var r := ProcessFlybyData(f, geo, expw, origin, originR, flybyR, ignore);
      r.info.None? && r.chance.None? && r.eta.None? && !r.headingTowards
  {
  }

  /** A gated aircraft inside the flyby radius scores exactly 1 with no factors,
      whatever its speed and trail. */
  lemma InsideRadiusScoresOne(f: FlybyInput, geo: Geodesy, expw: int -> Positive, origin: Coord,
                              originR: real, flybyR: real, ignore: bool)
    requires f.distance.Some? && f.distance.value <= flybyR
    ensures var r := ProcessFlybyData(f, geo, expw, origin, originR, flybyR, ignore);
      r.chance.Some? ==> r.chance.value == Chance(1.0, None)
  {
  }
}
