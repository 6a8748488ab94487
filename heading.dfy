/** Compass arithmetic: the shorter angle between two directions, whether an
    aircraft points at the origin, the eight-point compass name of a bearing, and
    the weighted heading-stability score computed over a trail window. */
module Heading {
  import opened Values

  /** The shorter way round the compass between two directions in degrees. */
  function AngularDifference(a: real, b: real): (d: real)
    ensures 0.0 <= a < 360.0 && 0.0 <= b < 360.0 ==> 0.0 <= d <= 180.0
  {
    var raw := Abs(a - b);
    RMin(raw, 360.0 - raw)
  }

  /** The difference does not depend on the order of the two directions, is zero
      only for equal directions, and takes the short way across north. */
  lemma AngularDifferenceFacts(a: real, b: real)
    requires 0.0 <= a < 360.0 && 0.0 <= b < 360.0
    ensures AngularDifference(a, b) == AngularDifference(b, a)
    ensures AngularDifference(a, b) == 0.0 <==> a == b
  {
  }

  lemma AngularDifferenceAcrossNorth()
    ensures AngularDifference(358.0, 2.0) == 4.0
  {
  }

  /** The aircraft points towards the origin when its heading is within
      `maxDiff` degrees of the bearing from it to the origin. */
  predicate HeadingTowards(bearingToOrigin: real, heading: real, maxDiff: real) {
    AngularDifference(bearingToOrigin, heading) <= maxDiff
  }

  /** An aircraft pointing straight at the origin is heading towards it; one
      pointing straight away is not, for any tolerance below half a turn; and a
      tolerance of half a turn accepts every heading. */
  lemma HeadingTowardsExtremes(bearing: real, maxDiff: real)
    requires 0.0 <= bearing < 360.0
    ensures maxDiff >= 0.0 ==> HeadingTowards(bearing, bearing, maxDiff)
    ensures var away := if bearing < 180.0 then bearing + 180.0 else bearing - 180.0;
      maxDiff < 180.0 ==> !HeadingTowards(bearing, away, maxDiff)
    ensures maxDiff >= 180.0 ==> forall h :: 0.0 <= h < 360.0 ==> HeadingTowards(bearing, h, maxDiff)
  {
  }

  /** Widening the tolerance never turns a heading-towards verdict into a no. */
  lemma HeadingTowardsMonotone(bearing: real, heading: real, d1: real, d2: real)
    requires d1 <= d2 && HeadingTowards(bearing, heading, d1)
    ensures HeadingTowards(bearing, heading, d2)
  {
  }

  // ---------------------------------------------------------------------------
  // Compass names

  const CompassPoints: seq<string> := ["N", "NE", "E", "SE", "S", "SW", "W", "NW"]

  /** Python's `int()` on a float: truncation toward zero. */
  function TruncToInt(x: real): (n: int)
    ensures x >= 0.0 ==> n as real <= x < n as real + 1.0
    ensures x < 0.0 ==> n as real - 1.0 < x <= n as real
  {
    if x >= 0.0 then x.Floor else -((-x).Floor)
  }

  /** `int((bearing + 22.5) / 45) % 8`; Python's `%` with a positive divisor
      agrees with Dafny's. */
  function CompassIndex(bearing: real): (ix: int)
    ensures 0 <= ix < 8
  {
    TruncToInt((bearing + 22.5) / 45.0) % 8
  }

  function BearingToCompass(bearing: real): (dir: string)
    ensures dir in CompassPoints
  {
    CompassPoints[CompassIndex(bearing)]
  }

  /** Each compass point names the 45-degree sector centred on its direction,
      taken round the compass as often as needed. */
  lemma CompassSector(bearing: real, k: int)
    requires bearing >= -22.5
    requires 45.0 * k as real - 22.5 <= bearing < 45.0 * k as real + 22.5
    ensures BearingToCompass(bearing) == CompassPoints[k % 8]
  {
    var q := (bearing + 22.5) / 45.0;
    assert k as real <= q < k as real + 1.0;
    assert TruncToInt(q) == k;
  }

  /** Adding a full turn does not change the compass name. */
  lemma CompassPeriodic(bearing: real)
    requires bearing >= -22.5
    ensures BearingToCompass(bearing + 360.0) == BearingToCompass(bearing)
  {
    var k := ((bearing + 22.5) / 45.0).Floor;
    CompassSector(bearing, k);
    CompassSector(bearing + 360.0, k + 8);
    assert (k + 8) % 8 == k % 8;
  }

  /** Below -22.5 degrees truncation toward zero breaks the periodicity: -30
      and 330 are the same direction but are named differently. */
  lemma CompassBelowRange()
    ensures BearingToCompass(-30.0) == "N"
    ensures BearingToCompass(330.0) == "NW"
  {
    assert TruncToInt((-30.0 + 22.5) / 45.0) == 0;
    assert TruncToInt((330.0 + 22.5) / 45.0) == 7;
  }

  // ---------------------------------------------------------------------------
  // Heading stability

  /** The exponential weights are strictly positive reals. */
  type Positive = r: real | r > 0.0 witness 1.0

  /** The number of consecutive pairs, `len(range(len(trails) - 1))`. */
  function PairCount(trails: seq<TrailPoint>): nat {
    if |trails| == 0 then 0 else |trails| - 1
  }

  predicate BothHeadings(trails: seq<TrailPoint>, i: int)
    requires 0 <= i && i + 1 < |trails|
  {
    trails[i].hd.Some? && trails[i + 1].hd.Some?
  }

  /** The heading changes of the first `n` pairs, skipping pairs where either
      heading is missing. */
  function PairChanges(trails: seq<TrailPoint>, n: nat): seq<real>
    requires n <= PairCount(trails)
  {
    if n == 0 then []
    else
      var i := n - 1;
      PairChanges(trails, i)
        + (if BothHeadings(trails, i)
           then [AngularDifference(trails[i].hd.value, trails[i + 1].hd.value)] else [])
  }

  /** The weight of each kept pair: `exp(len(trails) - i)` for pair `i`. */
  function PairWeights(trails: seq<TrailPoint>, expw: int -> Positive, n: nat): (ws: seq<real>)
    requires n <= PairCount(trails)
    ensures |ws| == |PairChanges(trails, n)|
    ensures forall k :: 0 <= k < |ws| ==> ws[k] > 0.0
  {
    if n == 0 then []
    else
      var i := n - 1;
      PairWeights(trails, expw, i)
        + (if BothHeadings(trails, i) then [expw(|trails| - i) as real] else [])
  }

  function Changes(trails: seq<TrailPoint>): seq<real> {
    PairChanges(trails, PairCount(trails))
  }

  function Weights(trails: seq<TrailPoint>, expw: int -> Positive): (ws: seq<real>)
    ensures |ws| == |Changes(trails)|
    ensures forall k :: 0 <= k < |ws| ==> ws[k] > 0.0
  {
    PairWeights(trails, expw, PairCount(trails))
  }

  /** `sum(change * weight for change, weight in zip(changes, weights))`. */
  function Dot(cs: seq<real>, ws: seq<real>): real
    requires |cs| == |ws|
  {
    if cs == [] then 0.0
    else Dot(cs[..|cs| - 1], ws[..|ws| - 1]) + cs[|cs| - 1] * ws[|ws| - 1]
  }

  function Total(ws: seq<real>): real {
    if ws == [] then 0.0 else Total(ws[..|ws| - 1]) + ws[|ws| - 1]
  }

  /** The weighted mean, or 0 when the weights sum to zero. */
  function WeightedAverage(cs: seq<real>, ws: seq<real>): real
    requires |cs| == |ws|
  {
    var total := Total(ws);
    if total != 0.0 then Dot(cs, ws) / total else 0.0
  }

  /** The chance that the aircraft keeps a straight heading: 0 without a single
      pair of headings, otherwise one minus the weighted mean change relative to
      `maxChange`, clamped to [0, 1]. */
  function StraightHeadingChanceOf(trails: seq<TrailPoint>, expw: int -> Positive, maxChange: real): (r: real)
    requires maxChange != 0.0
    ensures 0.0 <= r <= 1.0
  {
    var cs := Changes(trails);
    if cs == [] then 0.0
    else Clamp(1.0 - WeightedAverage(cs, Weights(trails, expw)) / maxChange, 0.0, 1.0)
  }

  /** The loop of `calculate_straight_heading_chance`: collect the changes and
      their weights pair by pair, then form the clamped weighted average. */
  method StraightHeadingChance(trails: seq<TrailPoint>, expw: int -> Positive, maxChange: real)
    returns (chance: real)
    requires maxChange != 0.0
    ensures chance == StraightHeadingChanceOf(trails, expw, maxChange)
    ensures 0.0 <= chance <= 1.0
  {
    var changes: seq<real> := [];
    var weights: seq<real> := [];
    var i := 0;
    while i < PairCount(trails)
      invariant 0 <= i <= PairCount(trails)
      invariant changes == PairChanges(trails, i)
      invariant weights == PairWeights(trails, expw, i)
    {
      if trails[i].hd.Some? && trails[i + 1].hd.Some? {
        changes := changes + [AngularDifference(trails[i].hd.value, trails[i + 1].hd.value)];
        weights := weights + [expw(|trails| - i) as real];
      }
      i := i + 1;
    }
    if changes == [] {
      return 0.0;
    }
    var weightedSum := Dot(changes, weights);
    var totalWeight := Total(weights);
    var average := if totalWeight != 0.0 then weightedSum / totalWeight else 0.0;
    chance := RMax(0.0, RMin(1.0, 1.0 - average / maxChange));
  }

  // ---------------------------------------------------------------------------
  // Properties of the stability score

  /** Headings as the feed reports them, in [0, 360). */
  predicate HeadingsInRange(trails: seq<TrailPoint>) {
    forall i :: 0 <= i < |trails| && trails[i].hd.Some? ==> 0.0 <= trails[i].hd.value < 360.0
  }

  /** Some consecutive pair carries both headings. */
  predicate HasHeadingPair(trails: seq<TrailPoint>, n: nat)
    requires n <= PairCount(trails)
  {
    exists i :: 0 <= i < n && BothHeadings(trails, i)
  }

  /** Every consecutive pair that carries both headings has equal headings. */
  predicate Steady(trails: seq<TrailPoint>, n: nat)
    requires n <= PairCount(trails)
  {
    forall i :: 0 <= i < n && BothHeadings(trails, i) ==> trails[i].hd.value == trails[i + 1].hd.value
  }

  lemma {:induction false} PairChangesEmptyIff(trails: seq<TrailPoint>, n: nat)
    requires n <= PairCount(trails)
    ensures PairChanges(trails, n) == [] <==> !HasHeadingPair(trails, n)
  {
    if n > 0 {
      PairChangesEmptyIff(trails, n - 1);
      if BothHeadings(trails, n - 1) {
        assert |PairChanges(trails, n)| == |PairChanges(trails, n - 1)| + 1;
      }
    }
  }

  lemma {:induction false} PairChangesInRange(trails: seq<TrailPoint>, n: nat)
    requires n <= PairCount(trails) && HeadingsInRange(trails)
    ensures forall k :: 0 <= k < |PairChanges(trails, n)| ==> 0.0 <= PairChanges(trails, n)[k] <= 180.0
  {
    if n > 0 {
      PairChangesInRange(trails, n - 1);
    }
  }

  /** All changes are zero exactly when the headings are steady. */
  lemma {:induction false} PairChangesZeroIff(trails: seq<TrailPoint>, n: nat)
    requires n <= PairCount(trails) && HeadingsInRange(trails)
    ensures (forall k :: 0 <= k < |PairChanges(trails, n)| ==> PairChanges(trails, n)[k] == 0.0)
        <==> Steady(trails, n)
  {
    if n > 0 {
      var i := n - 1;
      PairChangesZeroIff(trails, i);
      var prev := PairChanges(trails, i);
      var cur := PairChanges(trails, n);
      if BothHeadings(trails, i) {
        var a, b := trails[i].hd.value, trails[i + 1].hd.value;
        AngularDifferenceFacts(a, b);
        assert cur == prev + [AngularDifference(a, b)];
        assert Steady(trails, n) <==> Steady(trails, i) && a == b;
        assert (forall k :: 0 <= k < |cur| ==> cur[k] == 0.0)
            <==> (forall k :: 0 <= k < |prev| ==> prev[k] == 0.0) && AngularDifference(a, b) == 0.0 by {
          assert forall k :: 0 <= k < |prev| ==> cur[k] == prev[k];
          assert cur[|prev|] == AngularDifference(a, b);
        }
      } else {
        assert PairChanges(trails, n) == prev;
      }
    }
  }

  lemma TotalPositive(ws: seq<real>)
    requires ws != [] && forall k :: 0 <= k < |ws| ==> ws[k] > 0.0
    ensures Total(ws) > 0.0
    decreases |ws|
  {
    if |ws| > 1 {
      TotalPositive(ws[..|ws| - 1]);
    }
  }

  lemma MulMono(a: real, b: real, w: real)
    requires a <= b && w > 0.0
    ensures a * w <= b * w
  {
  }

  lemma ScaleTotal(ws: seq<real>, hi: real)
    requires ws != []
    ensures hi * Total(ws) == hi * Total(ws[..|ws| - 1]) + hi * ws[|ws| - 1]
  {
  }

  /** A weighted sum of values at most `hi` is at most `hi` times the total
      weight. */
  lemma {:induction false} DotAtMost(cs: seq<real>, ws: seq<real>, hi: real)
    requires |cs| == |ws|
    requires forall k :: 0 <= k < |ws| ==> ws[k] > 0.0
    requires forall k :: 0 <= k < |cs| ==> cs[k] <= hi
    ensures Dot(cs, ws) <= hi * Total(ws)
    decreases |cs|
  {
    if cs != [] {
      var m := |cs| - 1;
      DotAtMost(cs[..m], ws[..m], hi);
      MulMono(cs[m], hi, ws[m]);
      ScaleTotal(ws, hi);
    }
  }

  lemma {:induction false} DotNonNegative(cs: seq<real>, ws: seq<real>)
    requires |cs| == |ws|
    requires forall k :: 0 <= k < |ws| ==> ws[k] > 0.0
    requires forall k :: 0 <= k < |cs| ==> cs[k] >= 0.0
    ensures Dot(cs, ws) >= 0.0
    decreases |cs|
  {
    if cs != [] {
      var m := |cs| - 1;
      DotNonNegative(cs[..m], ws[..m]);
      MulMono(0.0, cs[m], ws[m]);
    }
  }

  /** A weighted sum of non-negative values is zero only when every value is. */
  lemma {:induction false} DotZero(cs: seq<real>, ws: seq<real>)
    requires |cs| == |ws|
    requires forall k :: 0 <= k < |ws| ==> ws[k] > 0.0
    requires forall k :: 0 <= k < |cs| ==> cs[k] >= 0.0
    ensures Dot(cs, ws) == 0.0 <==> forall k :: 0 <= k < |cs| ==> cs[k] == 0.0
    decreases |cs|
  {
    if cs != [] {
      var m := |cs| - 1;
      DotZero(cs[..m], ws[..m]);
      DotNonNegative(cs[..m], ws[..m]);
      MulMono(0.0, cs[m], ws[m]);
      if cs[m] > 0.0 {
        assert cs[m] * ws[m] > 0.0;
      }
      if Dot(cs, ws) == 0.0 {
        assert cs[m] * ws[m] == 0.0;
        assert forall k :: 0 <= k < m ==> cs[..m][k] == cs[k];
      }
    }
  }

  lemma DivBounds(d: real, t: real, lo: real, hi: real)
    requires t > 0.0 && lo * t <= d <= hi * t
    ensures lo <= d / t <= hi
  {
  }

  /** With headings in [0, 360) the weighted mean change lies in [0, 180]. */
  lemma AverageChangeBounds(trails: seq<TrailPoint>, expw: int -> Positive)
    requires HeadingsInRange(trails)
    ensures 0.0 <= WeightedAverage(Changes(trails), Weights(trails, expw)) <= 180.0
  {
    var cs, ws := Changes(trails), Weights(trails, expw);
    PairChangesInRange(trails, PairCount(trails));
    if ws != [] {
      TotalPositive(ws);
      DotNonNegative(cs, ws);
      DotAtMost(cs, ws, 180.0);
      DivBounds(Dot(cs, ws), Total(ws), 0.0, 180.0);
    }
  }

  /** Without a single pair of known headings the score is 0; otherwise it is
      full exactly when every observed change is zero. */
  lemma StraightHeadingChanceFull(trails: seq<TrailPoint>, expw: int -> Positive, maxChange: real)
    requires HeadingsInRange(trails) && maxChange > 0.0
    ensures !HasHeadingPair(trails, PairCount(trails)) ==> StraightHeadingChanceOf(trails, expw, maxChange) == 0.0
    ensures StraightHeadingChanceOf(trails, expw, maxChange) == 1.0
        <==> HasHeadingPair(trails, PairCount(trails)) && Steady(trails, PairCount(trails))
  {
    var n := PairCount(trails);
    var cs, ws := Changes(trails), Weights(trails, expw);
    PairChangesEmptyIff(trails, n);
    PairChangesZeroIff(trails, n);
    PairChangesInRange(trails, n);
    if cs != [] {
      TotalPositive(ws);
      DotZero(cs, ws);
      DotNonNegative(cs, ws);
      DotAtMost(cs, ws, 180.0);
      var avg := WeightedAverage(cs, ws);
      DivBounds(Dot(cs, ws), Total(ws), 0.0, 180.0);
      assert avg == 0.0 <==> Dot(cs, ws) == 0.0;
    }
  }

  /** A mean change at or beyond `maxChange` gives a score of 0. */
  lemma StraightHeadingChanceZero(trails: seq<TrailPoint>, expw: int -> Positive, maxChange: real)
    requires maxChange > 0.0
    requires WeightedAverage(Changes(trails), Weights(trails, expw)) >= maxChange
    ensures StraightHeadingChanceOf(trails, expw, maxChange) == 0.0
  {
    var avg := WeightedAverage(Changes(trails), Weights(trails, expw));
    assert avg / maxChange >= 1.0;
  }
}
