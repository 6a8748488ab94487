/** Values shared by the whole flyby pipeline: trail points, coordinates and the
    loosely-typed values that flight dictionaries and stored rows hold. */
module Values {

  datatype Option<+T> = None | Some(value: T)

  /** A latitude/longitude pair in degrees. */
  datatype Coord = Coord(lat: real, lng: real)

  /** One position sample. `ts` is a Unix timestamp in whole seconds and is the
      key by which samples are deduplicated; `hd` is the heading in degrees,
      which the detailed fetch may leave out. */
  datatype TrailPoint = TrailPoint(lat: real, lng: real, alt: int, spd: int, ts: int, hd: Option<real>)

  /** What one key of a flight dictionary, or one column of a stored row, holds. */
  datatype Value =
    | Null
    | Str(s: string)
    | Int(i: int)
    | Real(r: real)
    | Bool(b: bool)
    | Time(seconds: int)            // a "%Y-%m-%d %H:%M:%S" timestamp, kept as seconds
    | Point(p: TrailPoint)          // a single trail point, as the basic fetch produces it
    | Trail(points: seq<TrailPoint>) // a list of trail points
    | Coords(c: Coord)              // a {"lat": .., "lng": ..} dictionary

  /** A flight dictionary: keys are field names. A key that is absent reads as None. */
  type Record = map<string, Value>

  /** Python truthiness of a value. */
  predicate Truthy(v: Value) {
    match v
    case Null => false
    case Str(s) => s != ""
    case Int(i) => i != 0
    case Real(r) => r != 0.0
    case Bool(b) => b
    case Time(_) => true
    case Point(_) => true
    case Trail(ps) => ps != []
    case Coords(_) => true
  }

  /** `d.get(k)`: the value under `k`, or None when `k` is absent. */
  function Get(d: Record, k: string): Value {
    if k in d then d[k] else Null
  }

  function Min(a: int, b: int): int { if a <= b then a else b }

  /** Python's `min` and `max` on two numbers. */
  function RMin(a: real, b: real): real { if a <= b then a else b }
  function RMax(a: real, b: real): real { if a >= b then a else b }

  function Abs(x: real): real { if x < 0.0 then -x else x }

  /** `max(lo, min(hi, x))`, the clamp the scorer writes out at every factor. */
  function Clamp(x: real, lo: real, hi: real): real { RMax(lo, RMin(hi, x)) }
}
