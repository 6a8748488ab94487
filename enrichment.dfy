/** `DatabaseUtils.enrich_missing_flight_data_from_db` (sql_utils.py): missing
    airline names, cities and destination coordinates are filled from the
    airline and airport reference tables, which are given as lists of rows. */
module Enrichment {
  import opened Values

  datatype AirlineRow = AirlineRow(icao: Value, name: Value)

  /** An airport's coordinates are REAL columns that may be NULL. */
  datatype AirportRow = AirportRow(icao: Value, iata: Value, city: Value, lat: Option<real>, lng: Option<real>)

  predicate TruthyReal(x: Option<real>) {
    x.Some? && x.value != 0.0
  }

  /** A lookup table built by a dict comprehension over the rows: every row
      whose key is truthy, a later row replacing an earlier one with the same
      key. */
  function Index<R, T>(rows: seq<R>, key: R -> Value, pick: R -> T): (m: map<Value, T>)
    ensures forall k :: k in m ==> Truthy(k) && k in KeysOf(rows, key)
    ensures forall j :: 0 <= j < |rows| && Truthy(key(rows[j])) ==> key(rows[j]) in m
  {
    if rows == [] then map[]
    else
      var n := |rows| - 1;
      var m := Index(rows[..n], key, pick);
      assert forall j :: 0 <= j < n ==> rows[..n][j] == rows[j];
      if Truthy(key(rows[n])) then m[key(rows[n]) := pick(rows[n])] else m
  }

  function KeysOf<R>(rows: seq<R>, key: R -> Value): set<Value> {
    set j | 0 <= j < |rows| :: key(rows[j])
  }

  /** The entry for a key comes from the last row holding it. */
  lemma {:induction false} IndexLastWins<R, T>(rows: seq<R>, key: R -> Value, pick: R -> T, j: nat)
    requires j < |rows| && Truthy(key(rows[j]))
    requires forall j' :: j < j' < |rows| ==> key(rows[j']) != key(rows[j])
    ensures Index(rows, key, pick)[key(rows[j])] == pick(rows[j])
  {
    var n := |rows| - 1;
    if j < n {
      assert rows[..n][j] == rows[j];
      forall j' | j < j' < n ensures key(rows[..n][j']) != key(rows[..n][j]) {
        assert rows[..n][j'] == rows[j'];
      }
      IndexLastWins(rows[..n], key, pick, j);
    }
  }

  /** The airline names by ICAO code. */
  function AirlineIndex(rows: seq<AirlineRow>): map<Value, Value> {
    Index(rows, (r: AirlineRow) => r.icao, (r: AirlineRow) => r.name)
  }

  /** The airports by IATA code. */
  function AirportIndex(rows: seq<AirportRow>): map<Value, AirportRow> {
    Index(rows, (r: AirportRow) => r.iata, (r: AirportRow) => r)
  }

  /** The fields the enrichment may write. */
  const FilledKeys: set<string> := {"airline", "origin_city", "destination_city", "destination_airport_coords"}

  /** A field is filled from the table when it is falsy and the flight's code
      is truthy and present in the table. */
  predicate Fills<T>(f: Record, field: string, code: string, index: map<Value, T>) {
    !Truthy(Get(f, field)) && Truthy(Get(f, code)) && f[code] in index
  }

  /** One `if` of the enrichment: fill `field` from the entry for `code`. */
  function Fill<T>(f: Record, field: string, code: string, index: map<Value, T>, pick: T -> Value): (r: Record)
    ensures r.Keys == f.Keys + (if Fills(f, field, code, index) then {field} else {})
    ensures forall k :: k in f && k != field ==> r[k] == f[k]
    ensures Fills(f, field, code, index) ==> r[field] == pick(index[f[code]])
    ensures !Fills(f, field, code, index) ==> r == f
  {
    if Fills(f, field, code, index) then f[field := pick(index[f[code]])] else f
  }

  /** The destination coordinates are filled inside the destination branch,
      when they are falsy and both of the airport's coordinates are truthy. */
  predicate FillsCoords(f: Record, airports: map<Value, AirportRow>) {
    Fills(f, "destination_city", "destination_airport_iata", airports)
    && !Truthy(Get(f, "destination_airport_coords"))
    && TruthyReal(airports[f["destination_airport_iata"]].lat)
    && TruthyReal(airports[f["destination_airport_iata"]].lng)
  }

  function CoordsOf(a: AirportRow): Value
    requires a.lat.Some? && a.lng.Some?
  {
    Coords(Coord(a.lat.value, a.lng.value))
  }

  /** The destination branch: the city, and inside it the coordinates. */
  function FillDestination(f: Record, airports: map<Value, AirportRow>): (r: Record)
    ensures r.Keys == f.Keys + (if Fills(f, "destination_city", "destination_airport_iata", airports) then {"destination_city"} else {})
                             + (if FillsCoords(f, airports) then {"destination_airport_coords"} else {})
    ensures forall k :: k in f && k != "destination_city" && k != "destination_airport_coords" ==> r[k] == f[k]
    ensures Fills(f, "destination_city", "destination_airport_iata", airports) ==>
              r["destination_city"] == airports[f["destination_airport_iata"]].city
    ensures !Fills(f, "destination_city", "destination_airport_iata", airports) ==> r == f
    ensures FillsCoords(f, airports) ==> r["destination_airport_coords"] == CoordsOf(airports[f["destination_airport_iata"]])
    ensures !FillsCoords(f, airports) ==> Get(r, "destination_airport_coords") == Get(f, "destination_airport_coords")
  {
    if Fills(f, "destination_city", "destination_airport_iata", airports) then
      var a := airports[f["destination_airport_iata"]];
      var f3 := f["destination_city" := a.city];
      if !Truthy(Get(f3, "destination_airport_coords")) && TruthyReal(a.lat) && TruthyReal(a.lng)
      then f3["destination_airport_coords" := CoordsOf(a)]
      else f3
    else f
  }

  /** One flight after enrichment: airline, then origin city, then the
      destination branch. Only the fillable fields can appear or change. */
  function EnrichFlight(f: Record, airlines: map<Value, Value>, airports: map<Value, AirportRow>): (r: Record)
    ensures f.Keys <= r.Keys <= f.Keys + FilledKeys
    ensures forall k :: k in f && k !in FilledKeys ==> r[k] == f[k]
  {
    var f1 := Fill(f, "airline", "airline_icao", airlines, (n: Value) => n);
    var f2 := Fill(f1, "origin_city", "origin_airport_iata", airports, (a: AirportRow) => a.city);
    FillDestination(f2, airports)
  }

  /** The airline name changes only by being filled from the airline table. */
  lemma EnrichFlightAirline(f: Record, airlines: map<Value, Value>, airports: map<Value, AirportRow>)
    ensures var r := EnrichFlight(f, airlines, airports);
      && (Fills(f, "airline", "airline_icao", airlines) ==> "airline" in r && r["airline"] == airlines[f["airline_icao"]])
      && (!Fills(f, "airline", "airline_icao", airlines) ==> Get(r, "airline") == Get(f, "airline"))
  {
  }

  /** The origin city changes only by being filled from the airport table. */
  lemma EnrichFlightOrigin(f: Record, airlines: map<Value, Value>, airports: map<Value, AirportRow>)
    ensures var r := EnrichFlight(f, airlines, airports);
      && (Fills(f, "origin_city", "origin_airport_iata", airports) ==>
            "origin_city" in r && r["origin_city"] == airports[f["origin_airport_iata"]].city)
      && (!Fills(f, "origin_city", "origin_airport_iata", airports) ==> Get(r, "origin_city") == Get(f, "origin_city"))
  {
    var f1 := Fill(f, "airline", "airline_icao", airlines, (n: Value) => n);
    assert Fills(f1, "origin_city", "origin_airport_iata", airports) == Fills(f, "origin_city", "origin_airport_iata", airports);
  }

  /** The destination city and coordinates change only by being filled from
      the airport table, the coordinates only together with the city. */
  lemma EnrichFlightDestination(f: Record, airlines: map<Value, Value>, airports: map<Value, AirportRow>)
    ensures var r := EnrichFlight(f, airlines, airports);
      && (Fills(f, "destination_city", "destination_airport_iata", airports) ==>
            "destination_city" in r && r["destination_city"] == airports[f["destination_airport_iata"]].city)
      && (!Fills(f, "destination_city", "destination_airport_iata", airports) ==>
            Get(r, "destination_city") == Get(f, "destination_city"))
      && (FillsCoords(f, airports) ==>
            "destination_airport_coords" in r && r["destination_airport_coords"] == CoordsOf(airports[f["destination_airport_iata"]]))
      && (!FillsCoords(f, airports) ==> Get(r, "destination_airport_coords") == Get(f, "destination_airport_coords"))
  {
    var f1 := Fill(f, "airline", "airline_icao", airlines, (n: Value) => n);
    var f2 := Fill(f1, "origin_city", "origin_airport_iata", airports, (a: AirportRow) => a.city);
    CodesKept(f, f2, airlines, airports);
    assert Fills(f2, "destination_city", "destination_airport_iata", airports)
        == Fills(f, "destination_city", "destination_airport_iata", airports);
    assert FillsCoords(f2, airports) == FillsCoords(f, airports);
  }

  /** The first two fills leave the destination fields and code alone. */
  lemma CodesKept(f: Record, f2: Record, airlines: map<Value, Value>, airports: map<Value, AirportRow>)
    requires f2 == Fill(Fill(f, "airline", "airline_icao", airlines, (n: Value) => n),
                        "origin_city", "origin_airport_iata", airports, (a: AirportRow) => a.city)
    ensures Get(f2, "destination_airport_iata") == Get(f, "destination_airport_iata")
    ensures Get(f2, "destination_city") == Get(f, "destination_city")
    ensures Get(f2, "destination_airport_coords") == Get(f, "destination_airport_coords")
  {
  }

  /** A truthy field is never overwritten. */
  lemma EnrichFlightKeepsTruthy(f: Record, airlines: map<Value, Value>, airports: map<Value, AirportRow>)
    ensures var r := EnrichFlight(f, airlines, airports);
      forall k :: k in FilledKeys && Truthy(Get(f, k)) ==> k in r && r[k] == f[k]
  {
    EnrichFlightAirline(f, airlines, airports);
    EnrichFlightOrigin(f, airlines, airports);
    EnrichFlightDestination(f, airlines, airports);
    var r := EnrichFlight(f, airlines, airports);
    forall k | k in FilledKeys && Truthy(Get(f, k)) ensures k in r && r[k] == f[k] {
      assert k in f;
      assert Get(r, k) == Get(f, k);
    }
  }

  /** A fill whose field already holds what it would write leaves the flight as it is. */
  lemma FillSettled<T>(g: Record, field: string, code: string, index: map<Value, T>, pick: T -> Value)
    requires Fills(g, field, code, index) ==> field in g && g[field] == pick(index[g[code]])
    ensures Fill(g, field, code, index, pick) == g
  {
  }

  /** Enriching an enriched flight changes nothing more. */
  lemma EnrichFlightIdempotent(f: Record, airlines: map<Value, Value>, airports: map<Value, AirportRow>)
    ensures EnrichFlight(EnrichFlight(f, airlines, airports), airlines, airports) == EnrichFlight(f, airlines, airports)
  {
    var g := EnrichFlight(f, airlines, airports);
    CodesUnchanged(f, g);
    EnrichFlightAirline(f, airlines, airports);
    AirlineSettled(f, g, airlines);
    EnrichFlightOrigin(f, airlines, airports);
    OriginSettled(f, g, airports);
    EnrichFlightDestination(f, airlines, airports);
    DestinationSettled(f, g, airports);
  }

  /** The codes the fills read are not among the fields they write. */
  lemma CodesUnchanged(f: Record, g: Record)
    requires f.Keys <= g.Keys <= f.Keys + FilledKeys
    requires forall k :: k in f && k !in FilledKeys ==> g[k] == f[k]
    ensures Get(g, "airline_icao") == Get(f, "airline_icao")
    ensures Get(g, "origin_airport_iata") == Get(f, "origin_airport_iata")
    ensures Get(g, "destination_airport_iata") == Get(f, "destination_airport_iata")
  {
  }

  lemma AirlineSettled(f: Record, g: Record, airlines: map<Value, Value>)
    requires Get(g, "airline_icao") == Get(f, "airline_icao")
    requires Fills(f, "airline", "airline_icao", airlines) ==> "airline" in g && g["airline"] == airlines[f["airline_icao"]]
    requires !Fills(f, "airline", "airline_icao", airlines) ==> Get(g, "airline") == Get(f, "airline")
    ensures Fill(g, "airline", "airline_icao", airlines, (n: Value) => n) == g
  {
    if Fills(g, "airline", "airline_icao", airlines) {
      assert Fills(f, "airline", "airline_icao", airlines);
    }
    FillSettled(g, "airline", "airline_icao", airlines, (n: Value) => n);
  }

  lemma OriginSettled(f: Record, g: Record, airports: map<Value, AirportRow>)
    requires Get(g, "origin_airport_iata") == Get(f, "origin_airport_iata")
    requires Fills(f, "origin_city", "origin_airport_iata", airports) ==>
               "origin_city" in g && g["origin_city"] == airports[f["origin_airport_iata"]].city
    requires !Fills(f, "origin_city", "origin_airport_iata", airports) ==> Get(g, "origin_city") == Get(f, "origin_city")
    ensures Fill(g, "origin_city", "origin_airport_iata", airports, (a: AirportRow) => a.city) == g
  {
    if Fills(g, "origin_city", "origin_airport_iata", airports) {
      assert Fills(f, "origin_city", "origin_airport_iata", airports);
    }
    FillSettled(g, "origin_city", "origin_airport_iata", airports, (a: AirportRow) => a.city);
  }

  lemma DestinationSettled(f: Record, g: Record, airports: map<Value, AirportRow>)
    requires Get(g, "destination_airport_iata") == Get(f, "destination_airport_iata")
    requires Fills(f, "destination_city", "destination_airport_iata", airports) ==>
               "destination_city" in g && g["destination_city"] == airports[f["destination_airport_iata"]].city
    requires !Fills(f, "destination_city", "destination_airport_iata", airports) ==>
               Get(g, "destination_city") == Get(f, "destination_city")
    requires FillsCoords(f, airports) ==> "destination_airport_coords" in g && g["destination_airport_coords"] == CoordsOf(airports[f["destination_airport_iata"]])
    requires !FillsCoords(f, airports) ==> Get(g, "destination_airport_coords") == Get(f, "destination_airport_coords")
    ensures FillDestination(g, airports) == g
  {
    if Fills(g, "destination_city", "destination_airport_iata", airports) {
      assert Fills(f, "destination_city", "destination_airport_iata", airports);
      var a := airports[g["destination_airport_iata"]];
      var g3 := g["destination_city" := a.city];
      assert g3 == g;
      assert !FillsCoords(g, airports) by {
        if FillsCoords(f, airports) {
          assert Truthy(g["destination_airport_coords"]);
        }
      }
    }
  }

  /** The flights a per-flight update `enrich` changes, enriched, in order. */
  function ChangedBy(flights: seq<Record>, enrich: Record -> Record): (r: seq<Record>)
    ensures |r| <= |flights|
  {
    if flights == [] then []
    else
      var n := |flights| - 1;
      var e := enrich(flights[n]);
      ChangedBy(flights[..n], enrich) + (if e != flights[n] then [e] else [])
  }

  /** Every returned flight is the update of an input flight that it differs
      from, and every input flight the update changes is returned. */
  lemma {:induction false} ChangedBySpec(flights: seq<Record>, enrich: Record -> Record)
    ensures forall e :: e in ChangedBy(flights, enrich) ==>
      exists j :: 0 <= j < |flights| && e == enrich(flights[j]) && e != flights[j]
    ensures forall j :: 0 <= j < |flights| && enrich(flights[j]) != flights[j] ==> enrich(flights[j]) in ChangedBy(flights, enrich)
  {
    if flights != [] {
      var n := |flights| - 1;
      var init := flights[..n];
      ChangedBySpec(init, enrich);
      var r := ChangedBy(flights, enrich);
      forall e | e in r ensures exists j :: 0 <= j < |flights| && e == enrich(flights[j]) && e != flights[j] {
        if e in ChangedBy(init, enrich) {
          var j :| 0 <= j < n && e == enrich(init[j]) && e != init[j];
          assert init[j] == flights[j];
        } else {
          assert e == enrich(flights[n]) && e != flights[n];
        }
      }
      forall j | 0 <= j < |flights| && enrich(flights[j]) != flights[j] ensures enrich(flights[j]) in r {
        if j < n {
          assert init[j] == flights[j];
        }
      }
    }
  }

  function Enricher(airlines: map<Value, Value>, airports: map<Value, AirportRow>): Record -> Record {
    (f: Record) => EnrichFlight(f, airlines, airports)
  }

  /** A flight with every fillable field already truthy is never returned. */
  lemma CompleteFlightUnchanged(f: Record, airlines: map<Value, Value>, airports: map<Value, AirportRow>)
    requires forall k :: k in FilledKeys ==> Truthy(Get(f, k))
    ensures EnrichFlight(f, airlines, airports) == f
    ensures ChangedBy([f], Enricher(airlines, airports)) == []
  {
    assert [f][..0] == [];
  }

  /** The loop of the enrichment, for any per-flight update: each flight is
      updated (the source does so in place), and the changed ones are
      collected in order. */
  method EnrichEach(flights: seq<Record>, enrich: Record -> Record) returns (updated: seq<Record>, enriched: seq<Record>)
    ensures |updated| == |flights|
    ensures forall j :: 0 <= j < |flights| ==> updated[j] == enrich(flights[j])
    ensures enriched == ChangedBy(flights, enrich)
  {
    updated := [];
    enriched := [];
    var i := 0;
    while i < |flights|
      invariant 0 <= i <= |flights|
      invariant |updated| == i
      invariant forall j :: 0 <= j < i ==> updated[j] == enrich(flights[j])
      invariant enriched == ChangedBy(flights[..i], enrich)
    {
      var original := flights[i];
      var flight := enrich(original);
      assert flights[..i + 1][..i] == flights[..i] && flights[..i + 1][i] == original;
      if flight != original {
        enriched := enriched + [flight];
      }
      updated := updated + [flight];
      i := i + 1;
    }
    assert flights[..i] == flights;
  }

  /** `enrich_missing_flight_data_from_db`: the lookup tables are built from
      the reference rows and every flight is enriched from them; the changed
      flights are returned, none for an empty list. */
  method EnrichMissingFlightData(flights: seq<Record>, airlineRows: seq<AirlineRow>, airportRows: seq<AirportRow>)
    returns (updated: seq<Record>, enriched: seq<Record>)
    ensures |updated| == |flights|
    ensures forall j :: 0 <= j < |flights| ==>
      updated[j] == EnrichFlight(flights[j], AirlineIndex(airlineRows), AirportIndex(airportRows))
    ensures enriched == ChangedBy(flights, Enricher(AirlineIndex(airlineRows), AirportIndex(airportRows)))
    ensures flights == [] ==> enriched == []
  {
    if flights == [] {
      return [], [];
    }
    updated, enriched := EnrichEach(flights, Enricher(AirlineIndex(airlineRows), AirportIndex(airportRows)));
  }
}
