/** Presentation helpers: shortening names for the terminal table, the
    "City (CODE)" label, the "-" placeholder for missing display fields and
    the renaming of record keys to column titles. */
module Display {
  import opened Values

  // ---------------------------------------------------------------------------
  // Shortening

  /** Python's `s[:k]`: a negative `k` counts from the end, and the bounds are
      clipped to the string. */
  function PyPrefix(s: string, k: int): (r: string)
    ensures |r| <= |s|
    ensures r == s[..|r|]
  {
    if k >= 0 then s[..Min(k, |s|)]
    else if |s| + k >= 0 then s[..|s| + k]
    else []
  }

  /** `truncate_string` as written: a string longer than `maxLength` keeps its
      first `maxLength - 1` characters and gains "..". A missing value is
      passed through. */
  function TruncateString(s: Option<string>, maxLength: int): (r: Option<string>)
    ensures s.None? ==> r.None?
    ensures s.Some? && |s.value| <= maxLength ==> r == s
    ensures s.Some? && |s.value| > maxLength && maxLength >= 1 ==>
      r == Some(s.value[..maxLength - 1] + "..") && |r.value| == maxLength + 1
  {
    match s
    case None => None
    case Some(str) =>
      if |str| > maxLength then Some(PyPrefix(str, maxLength - 1) + "..") else Some(str)
  }

  /** The shortened string is one character longer than the limit: with the
      default limit of 20, a 22-character name comes out with 21 characters,
      and a 21-character name is not shortened even though "..", standing for
      a single dropped character, would make it longer still. */
  lemma TruncateStringExceedsLimit(s: string)
    requires |s| == 22
    ensures TruncateString(Some(s), 20) == Some(s[..19] + "..")
    ensures |TruncateString(Some(s), 20).value| == 21 > 20
  {
  }

  /** The evidently intended shortening: keep `maxLength - 2` characters so
      that with the two dots the result has exactly `maxLength`. */
  function TruncateToLimit(s: Option<string>, maxLength: nat): (r: Option<string>)
    requires maxLength >= 2
    ensures s.None? ==> r.None?
    ensures s.Some? ==> r.Some? && |r.value| <= maxLength
    ensures s.Some? && |s.value| <= maxLength ==> r == s
    ensures s.Some? && |s.value| > maxLength ==>
      |r.value| == maxLength && r.value[..maxLength - 2] == s.value[..maxLength - 2]
      && r.value[maxLength - 2..] == ".."
  {
    match s
    case None => None
    case Some(str) =>
      if |str| > maxLength then Some(str[..maxLength - 2] + "..") else Some(str)
  }

  /** Shortening twice is shortening once. */
  lemma TruncateToLimitIdempotent(s: Option<string>, maxLength: nat)
    requires maxLength >= 2
    ensures TruncateToLimit(TruncateToLimit(s, maxLength), maxLength) == TruncateToLimit(s, maxLength)
  {
  }

  // ---------------------------------------------------------------------------
  // Location labels

  predicate NonEmpty(t: Option<string>) {
    t.Some? && t.value != ""
  }

  /** `format_location`: "City (CODE)", "(CODE)" without a city, "-" without a
      code. */
  function FormatLocation(city: Option<string>, code: Option<string>): (text: string)
    ensures !NonEmpty(code) ==> text == "-"
    ensures NonEmpty(code) ==>
      && |text| >= |code.value| + 2
      && text[|text| - |code.value| - 2..] == "(" + code.value + ")"
      && (NonEmpty(city) ==> |text| == |city.value| + |code.value| + 3
                             && text[..|city.value| + 1] == city.value + " ")
      && (!NonEmpty(city) ==> text == "(" + code.value + ")")
  {
    if NonEmpty(code) then
      (if NonEmpty(city) then city.value + " " else "") + "(" + code.value + ")"
    else "-"
  }

  /** A label is the placeholder exactly when the code is missing: a real label
      holds at least the parenthesised code and so is longer than "-". */
  lemma FormatLocationPlaceholderIff(city: Option<string>, code: Option<string>)
    ensures FormatLocation(city, code) == "-" <==> !NonEmpty(code)
  {
  }

  // ---------------------------------------------------------------------------
  // Placeholders

  const DisplayFields: set<string> := {
    "callsign", "tail_no", "flight_no", "aircraft_icao", "aircraft", "airline_icao", "airline",
    "origin_airport_iata", "origin_city", "destination_airport_iata", "destination_city"}

  /** Every display field present with None becomes "-": afterwards no display
      field holds None, a value changes exactly where a display field held
      None, and a changed value is "-". */
  function DashForNone(flight: Record): (r: Record)
    ensures r.Keys == flight.Keys
    ensures forall k :: k in DisplayFields && k in r ==> r[k] != Null
    ensures forall k :: k in r ==>
      && (r[k] != flight[k] <==> k in DisplayFields && flight[k] == Null)
      && (r[k] != flight[k] ==> r[k] == Str("-"))
  {
    map k | k in flight :: if k in DisplayFields && flight[k] == Null then Str("-") else flight[k]
  }

  /** Afterwards no display field holds None, and a second pass changes nothing. */
  lemma DashForNoneClears(flight: Record)
    ensures forall k :: k in DisplayFields && k in DashForNone(flight) ==> DashForNone(flight)[k] != Null
    ensures DashForNone(DashForNone(flight)) == DashForNone(flight)
  {
  }

  // ---------------------------------------------------------------------------
  // Column titles

  /** Record keys and the column titles they are renamed to. */
  const KeyPairs: seq<(string, string)> := [
    ("callsign", "Callsign"),
    ("tail_no", "Tail No"),
    ("flight_no", "Flight No"),
    ("aircraft_icao", "Aircraft Code"),
    ("aircraft", "Aircraft"),
    ("airline_icao", "Airline Code"),
    ("airline", "Airline"),
    ("origin_airport_iata", "Origin Airport"),
    ("origin_city", "Origin City"),
    ("origin", "Origin"),
    ("destination_airport_iata", "Destination Airport"),
    ("destination_airport_coords", "Destination Airport Location"),
    ("destination_city", "Destination City"),
    ("destination", "Destination"),
    ("altitude", "Alt (m)"),
    ("speed", "Speed (km/h)"),
    ("heading", "Heading (°)"),
    ("location_coords", "Location Coords"),
    ("location", "Location"),
    ("distance_from_origin", "Distance (km)"),
    ("timestamp", "Timestamp"),
    ("flyby_eta", "ETA"),
    ("flyby_chance", "Flyby Chance"),
    ("flyby_info", "Flyby Info")]

  /** The first pair whose key (`side` false) or title (`side` true) is `k`,
      from position `i` on. */
  function FindPair(k: string, side: bool, i: nat): (j: Option<nat>)
    requires i <= |KeyPairs|
    ensures j.Some? ==>
      i <= j.value < |KeyPairs| && (if side then KeyPairs[j.value].1 else KeyPairs[j.value].0) == k
    ensures j.None? ==> forall m :: i <= m < |KeyPairs| ==> (if side then KeyPairs[m].1 else KeyPairs[m].0) != k
    decreases |KeyPairs| - i
  {
    if i == |KeyPairs| then None
    else if (if side then KeyPairs[i].1 else KeyPairs[i].0) == k then Some(i)
    else FindPair(k, side, i + 1)
  }

  /** `key_mapping.get(k, k)`. */
  function Rename(k: string): string {
    match FindPair(k, false, 0)
    case Some(j) => KeyPairs[j].1
    case None => k
  }

  /** The key a column title came from; other keys stand for themselves. */
  function Original(t: string): string {
    match FindPair(t, true, 0)
    case Some(j) => KeyPairs[j].0
    case None => t
  }

  predicate IsTitle(k: string) {
    FindPair(k, true, 0).Some?
  }

  /** No two pairs share a key or a title. */
  lemma KeyPairsInjective()
    ensures forall i, j :: 0 <= i < j < |KeyPairs| ==> KeyPairs[i].0 != KeyPairs[j].0 && KeyPairs[i].1 != KeyPairs[j].1
  {
    KeysDistinct();
    TitlesDistinct();
  }

  lemma KeysDistinct()
    ensures forall i, j :: 0 <= i < j < |KeyPairs| ==> KeyPairs[i].0 != KeyPairs[j].0
  {
  }

  lemma TitlesDistinct()
    ensures forall i, j :: 0 <= i < j < |KeyPairs| ==> KeyPairs[i].1 != KeyPairs[j].1
  {
  }

  /** Renaming a key that is not itself a title can be undone. */
  lemma OriginalRename(k: string)
    requires !IsTitle(k)
    ensures Original(Rename(k)) == k
  {
    match FindPair(k, false, 0)
    case Some(j) =>
      KeyPairsInjective();
      var t := KeyPairs[j].1;
      var m := FindPair(t, true, 0);
      assert m.Some?;
      assert m.value == j;
    case None =>
  }

  /** No key of the flight is already a column title. */
  predicate NoTitleKeys(flight: Record) {
    forall k :: k in flight ==> !IsTitle(k)
  }

  /** `standardize_flight_keys` on one flight: every key is renamed to its
      column title, the values are kept. The records the pipeline builds never
      already hold a title as a key. */
  function StandardizeKeys(flight: Record): (r: Record)
    requires NoTitleKeys(flight)
    ensures r.Keys == set k | k in flight :: Rename(k)
    ensures forall k :: k in flight ==> r[Rename(k)] == flight[k]
  {
    var titles := set k | k in flight :: Rename(k);
    forall k | k in flight ensures Original(Rename(k)) == k {
      OriginalRename(k);
    }
    map t | t in titles :: flight[Original(t)]
  }

  /** Renaming back with the titles' keys restores the flight. */
  lemma StandardizeKeysInvertible(flight: Record)
    requires NoTitleKeys(flight)
    ensures (map t | t in StandardizeKeys(flight) :: Original(t)) .Values == flight.Keys
    ensures forall t :: t in StandardizeKeys(flight) ==>
      Original(t) in flight && StandardizeKeys(flight)[t] == flight[Original(t)]
  {
    var r := StandardizeKeys(flight);
    forall k | k in flight ensures Original(Rename(k)) == k {
      OriginalRename(k);
    }
    forall t | t in r ensures Original(t) in flight && r[t] == flight[Original(t)] {
      var k :| k in flight && Rename(k) == t;
    }
    var back := map t | t in r :: Original(t);
    forall k | k in flight ensures k in back.Values {
      assert back[Rename(k)] == k;
    }
  }

  /** Each flight of the list is standardized. */
  function StandardizeFlightKeys(flights: seq<Record>): (r: seq<Record>)
    requires forall i :: 0 <= i < |flights| ==> NoTitleKeys(flights[i])
    ensures |r| == |flights|
    ensures forall i :: 0 <= i < |r| ==> r[i] == StandardizeKeys(flights[i])
  {
    if flights == [] then [] else [StandardizeKeys(flights[0])] + StandardizeFlightKeys(flights[1..])
  }
}
