/** The flights table and `DatabaseUtils.save_flights_to_db`,
    `get_flights_with_details_fetched` and `cleanup_old_flights` (sql_utils.py),
    over an in-memory table from flight id to row. JSON encoding of the trail
    and coordinate columns is lossless and is not modelled: a column holds the
    decoded value. Timestamps are seconds; a `Time` value is a well-formed
    "%Y-%m-%d %H:%M:%S" string, anything else in a timestamp column does not parse. */
module FlightStore {
  import opened Values
  import opened Trails
  import Fetch

  /** The columns of the flights table, without the autoincrement id. */
  const Columns: set<string> := {
    "flight_id", "callsign", "tail_no", "flight_no", "aircraft_icao", "aircraft", "airline_icao", "airline",
    "origin_airport_iata", "origin_city", "destination_airport_iata", "destination_city",
    "destination_airport_coords", "trail_data", "trail_data_details", "last_fetch_timestamp",
    "last_fetch_timestamp_details"}

  type Row = map<string, Value>

  /** A stored row: every column present (NULL is `Null`), keyed by its id. */
  predicate RowOk(id: string, row: Row) {
    row.Keys == Columns && row["flight_id"] == Str(id)
  }

  /** Every row written by the save step holds a list of at most six points. */
  predicate TrailBounded(row: Row) {
    "trail_data" in row && row["trail_data"].Trail? && |row["trail_data"].points| <= HistoryWindow
  }

  predicate TableOk(rows: map<string, Row>) {
    forall id :: id in rows ==> RowOk(id, rows[id]) && TrailBounded(rows[id])
  }

  // ---------------------------------------------------------------------------
  // The trail merge

  /** The points whose timestamp differs from `t`, in their stored order. */
  function WithoutTs(s: seq<TrailPoint>, t: int): (r: seq<TrailPoint>)
    ensures |r| <= |s|
    ensures forall k :: 0 <= k < |r| ==> r[k].ts != t && r[k] in s
    ensures t !in TsSet(r)
  {
    if s == [] then []
    else if s[|s| - 1].ts == t then WithoutTs(s[..|s| - 1], t)
    else WithoutTs(s[..|s| - 1], t) + [s[|s| - 1]]
  }

  /** The old points of a stored trail column: a list as it is, a single
      point as a one-element list; anything else gives no old points. */
  function OldPoints(v: Value): Option<seq<TrailPoint>> {
    match v
    case Trail(ps) => Some(ps)
    case Point(p) => Some([p])
    case _ => None
  }

  function OldTrail(rows: map<string, Row>, id: string): Option<seq<TrailPoint>> {
    if id in rows && "trail_data" in rows[id] then OldPoints(rows[id]["trail_data"]) else None
  }

  /** The stored trail after a save: the new point first, then the old points
      with other timestamps, sorted newest first only when old points were
      read, and cut to six. */
  function MergedTrail(newPoint: TrailPoint, stored: Option<seq<TrailPoint>>): seq<TrailPoint> {
    match stored
    case None => [newPoint]
    case Some(ps) => Take(SortByTsDesc([newPoint] + WithoutTs(ps, newPoint.ts)), HistoryWindow)
  }

  /** The loop that collects the points and the in-place sort that follows it. */
  method MergeTrail(newPoint: TrailPoint, stored: Option<seq<TrailPoint>>) returns (trail: seq<TrailPoint>)
    ensures trail == MergedTrail(newPoint, stored)
    ensures 1 <= |trail| <= HistoryWindow
  {
    var points := [newPoint];
    if stored.Some? {
      var ps := stored.value;
      var i := 0;
      while i < |ps|
        invariant 0 <= i <= |ps|
        invariant points == [newPoint] + WithoutTs(ps[..i], newPoint.ts)
      {
        assert ps[..i + 1][..i] == ps[..i];
        if ps[i].ts != newPoint.ts {
          points := points + [ps[i]];
        }
        i := i + 1;
      }
      assert ps[..i] == ps;
      points := SortByTsDesc(points);
    }
    trail := Take(points, HistoryWindow);
  }

  lemma {:induction false} WithoutTsSet(s: seq<TrailPoint>, t: int)
    ensures TsSet(WithoutTs(s, t)) == TsSet(s) - {t}
    decreases |s|
  {
    if s != [] {
      var m := |s| - 1;
      var init := s[..m];
      WithoutTsSet(init, t);
      assert s == init + [s[m]];
      TsSetSnoc(init, s[m]);
      if s[m].ts != t {
        TsSetSnoc(WithoutTs(init, t), s[m]);
      }
    }
  }

  lemma {:induction false} WithoutTsDistinct(s: seq<TrailPoint>, t: int)
    requires DistinctTs(s)
    ensures DistinctTs(WithoutTs(s, t))
    decreases |s|
  {
    if s != [] {
      var m := |s| - 1;
      var init := s[..m];
      assert DistinctTs(init);
      WithoutTsDistinct(init, t);
      var r0 := WithoutTs(init, t);
      if s[m].ts != t {
        var r := r0 + [s[m]];
        forall i, j | 0 <= i < j < |r| ensures r[i].ts != r[j].ts {
          if j == |r0| {
            assert r[i] in init;
            var k :| 0 <= k < m && init[k] == r[i];
            assert s[k] == r[i];
          } else {
            assert r[i] == r0[i] && r[j] == r0[j];
          }
        }
      }
    }
  }

  lemma TsSetSnoc(s: seq<TrailPoint>, x: TrailPoint)
    ensures TsSet(s + [x]) == TsSet(s) + {x.ts}
  {
    forall u | u in TsSet(s + [x]) ensures u in TsSet(s) + {x.ts} {
      var p :| p in s + [x] && p.ts == u;
      if p != x { assert p in s; }
    }
    forall u | u in TsSet(s) ensures u in TsSet(s + [x]) {
      var p :| p in s && p.ts == u;
      assert p in s + [x];
    }
    assert x in s + [x];
  }

  /** After the merge no old point with the new point's timestamp is left, the
      trail holds one to six points, every point is the new one or an old one,
      and when old points were read the trail is sorted newest first; with
      distinct old timestamps it is strictly so. When old points were read,
      the trail is as long as the candidates (the new point and the old points
      with other timestamps) allow up to six, and a candidate that is cut is
      no newer than the last point kept. */
  lemma MergedTrailSpec(newPoint: TrailPoint, stored: Option<seq<TrailPoint>>)
    ensures var r := MergedTrail(newPoint, stored);
      && 1 <= |r| <= HistoryWindow
      && (forall k :: 0 <= k < |r| ==> r[k] == newPoint || (stored.Some? && r[k] in stored.value && r[k].ts != newPoint.ts))
      && (stored.Some? ==> NonIncreasing(r))
      && (stored.Some? && DistinctTs(stored.value) ==> StrictlyDescending(r))
      && (stored.Some? ==> |r| == Min(HistoryWindow, 1 + |WithoutTs(stored.value, newPoint.ts)|))
      && (stored.Some? ==> forall p :: p in [newPoint] + WithoutTs(stored.value, newPoint.ts) && p !in r ==> p.ts <= r[|r| - 1].ts)
  {
    if stored.Some? {
      MergedTrailMembers(newPoint, stored.value);
      MergedTrailOrder(newPoint, stored.value);
      MergedTrailKept(newPoint, stored.value);
    }
  }

  /** The cut keeps the newest candidates: the length is the number of
      candidates up to six, all candidates stay when they fit, and a candidate
      that is cut is no newer than the last point kept. */
  lemma MergedTrailKept(newPoint: TrailPoint, ps: seq<TrailPoint>)
    ensures var pre := [newPoint] + WithoutTs(ps, newPoint.ts);
      var r := Take(SortByTsDesc(pre), HistoryWindow);
      && |r| == Min(HistoryWindow, |pre|)
      && (|pre| <= HistoryWindow ==> multiset(r) == multiset(pre))
      && forall p :: p in pre && p !in r ==> p.ts <= r[|r| - 1].ts
  {
    var pre := [newPoint] + WithoutTs(ps, newPoint.ts);
    var sorted := SortByTsDesc(pre);
    var r := Take(sorted, HistoryWindow);
    SortByTsDescOrdered(pre);
    if |pre| <= HistoryWindow {
      assert r == sorted;
    }
    CutKeepsNewest(sorted, HistoryWindow);
    forall p | p in pre ensures p in sorted {
      assert p in multiset(sorted);
    }
  }

  /** Cutting a newest-first sequence drops only points no newer than the
      last one kept. */
  lemma CutKeepsNewest(s: seq<TrailPoint>, n: nat)
    requires NonIncreasing(s) && 1 <= n && s != []
    ensures var r := Take(s, n);
      forall p :: p in s && p !in r ==> p.ts <= r[|r| - 1].ts
  {
    var r := Take(s, n);
    assert forall i :: 0 <= i < |r| ==> s[i] in r;
    forall p | p in s && p !in r ensures p.ts <= r[|r| - 1].ts {
      var k :| 0 <= k < |s| && s[k] == p;
      assert r[|r| - 1] == s[|r| - 1];
    }
  }

  lemma MergedTrailMembers(newPoint: TrailPoint, ps: seq<TrailPoint>)
    ensures var r := Take(SortByTsDesc([newPoint] + WithoutTs(ps, newPoint.ts)), HistoryWindow);
      forall k :: 0 <= k < |r| ==> r[k] == newPoint || (r[k] in ps && r[k].ts != newPoint.ts)
  {
    var pre := [newPoint] + WithoutTs(ps, newPoint.ts);
    SortedMembers(pre);
    var sorted := SortByTsDesc(pre);
    var r := Take(sorted, HistoryWindow);
    forall k | 0 <= k < |r| ensures r[k] == newPoint || (r[k] in ps && r[k].ts != newPoint.ts) {
      assert r[k] == sorted[k] && sorted[k] in pre;
    }
  }

  lemma MergedTrailOrder(newPoint: TrailPoint, ps: seq<TrailPoint>)
    ensures var r := Take(SortByTsDesc([newPoint] + WithoutTs(ps, newPoint.ts)), HistoryWindow);
      NonIncreasing(r) && (DistinctTs(ps) ==> StrictlyDescending(r))
  {
    var pre := [newPoint] + WithoutTs(ps, newPoint.ts);
    SortByTsDescOrdered(pre);
    if DistinctTs(ps) {
      CandidatesDistinct(newPoint, ps);
      SortByTsDescStrict(pre);
    }
    TakeKeepsOrder(SortByTsDesc(pre), HistoryWindow);
  }

  /** The sorted sequence holds only points of its input. */
  lemma SortedMembers(s: seq<TrailPoint>)
    ensures forall k :: 0 <= k < |SortByTsDesc(s)| ==> SortByTsDesc(s)[k] in s
  {
    forall k | 0 <= k < |SortByTsDesc(s)| ensures SortByTsDesc(s)[k] in s {
      assert SortByTsDesc(s)[k] in multiset(SortByTsDesc(s));
    }
  }

  /** The new point followed by the old points with other timestamps has
      distinct timestamps when the old points do. */
  lemma CandidatesDistinct(newPoint: TrailPoint, ps: seq<TrailPoint>)
    requires DistinctTs(ps)
    ensures DistinctTs([newPoint] + WithoutTs(ps, newPoint.ts))
  {
    WithoutTsDistinct(ps, newPoint.ts);
    ConsDistinct(newPoint, WithoutTs(ps, newPoint.ts));
  }

  /** Cutting keeps the order of what is kept. */
  lemma TakeKeepsOrder(s: seq<TrailPoint>, n: nat)
    ensures NonIncreasing(s) ==> NonIncreasing(Take(s, n))
    ensures StrictlyDescending(s) ==> StrictlyDescending(Take(s, n))
  {
    var r := Take(s, n);
    assert forall i :: 0 <= i < |r| ==> r[i] == s[i];
  }

  /** A new point at least as recent as every old point heads the merged trail. */
  lemma NewestPointLeads(newPoint: TrailPoint, stored: Option<seq<TrailPoint>>)
    requires stored.Some? ==> AllAtMost(stored.value, newPoint.ts)
    ensures MergedTrail(newPoint, stored)[0] == newPoint
  {
    if stored.Some? {
      var ps := stored.value;
      var rest := WithoutTs(ps, newPoint.ts);
      SortedHeadIsNewest(newPoint, rest);
    }
  }

  lemma SortedHeadIsNewest(x: TrailPoint, rest: seq<TrailPoint>)
    requires AllBelow(rest, x.ts)
    ensures SortByTsDesc([x] + rest)[0] == x
  {
    var s := [x] + rest;
    assert s[1..] == rest;
    var t := SortByTsDesc(rest);
    SortByTsDescOrdered(rest);
    if t != [] {
      TsSetMember(t, 0);
      var p :| p in rest && p.ts == t[0].ts;
      var k :| 0 <= k < |rest| && rest[k] == p;
    }
  }

  // ---------------------------------------------------------------------------
  // Preparing and writing one flight

  /** A flight as the fetch produced it: a text id and a single new point. */
  predicate Saveable(f: Record) {
    "flight_id" in f && f["flight_id"].Str? && "trail_data" in f && f["trail_data"].Point?
  }

  function IsDetailed(f: Record): bool {
    Truthy(Get(f, Fetch.DetailsFetchedKey))
  }

  /** The flight as it is written: merged trail, fetch time now, details time
      now when the fetch was detailed, and no details flag. */
  function PrepareForWrite(f: Record, stored: Option<seq<TrailPoint>>, now: int): (g: Record)
    requires Saveable(f)
    ensures Fetch.DetailsFetchedKey !in g
    ensures g.Keys == (f.Keys - {Fetch.DetailsFetchedKey}) + {"last_fetch_timestamp"}
                      + (if IsDetailed(f) then {"last_fetch_timestamp_details"} else {})
    ensures g["trail_data"] == Trail(MergedTrail(f["trail_data"].p, stored))
    ensures g["last_fetch_timestamp"] == Time(now)
    ensures IsDetailed(f) ==> g["last_fetch_timestamp_details"] == Time(now)
    ensures !IsDetailed(f) ==> Get(g, "last_fetch_timestamp_details") == Get(f, "last_fetch_timestamp_details")
    ensures forall k :: k in g && k !in {"trail_data", "last_fetch_timestamp", "last_fetch_timestamp_details"} ==> g[k] == f[k]
  {
    var g1 := f["trail_data" := Trail(MergedTrail(f["trail_data"].p, stored))]["last_fetch_timestamp" := Time(now)];
    var g2 := if IsDetailed(f) then g1["last_fetch_timestamp_details" := Time(now)] else g1;
    g2 - {Fetch.DetailsFetchedKey}
  }

  /** INSERT OR REPLACE: the row holds the flight's values and NULL elsewhere. */
  function ReplacedRow(g: Record): (row: Row)
    ensures row.Keys == Columns
    ensures forall c :: c in Columns ==> row[c] == Get(g, c)
  {
    map c | c in Columns :: Get(g, c)
  }

  /** UPDATE ... SET c = COALESCE(?, c): a NULL or absent new value keeps the
      stored one, and the id column is never written. */
  function CoalescedRow(stored: Row, g: Record): (row: Row)
    requires stored.Keys == Columns
    ensures row.Keys == Columns
    ensures row["flight_id"] == stored["flight_id"]
    ensures forall c :: c in Columns && Get(g, c) == Null ==> row[c] == stored[c]
    ensures forall c :: c in Columns && c != "flight_id" && Get(g, c) != Null ==> row[c] == g[c]
  {
    map c | c in Columns :: if c != "flight_id" && c in g && g[c] != Null then g[c] else stored[c]
  }

  /** A flight whose keys, once the details flag is dropped, all name
      columns: exactly the flights whose write does not raise. */
  predicate Writable(f: Record) {
    f.Keys - {Fetch.DetailsFetchedKey} <= Columns
  }

  predicate AllWritable(flights: seq<Record>) {
    forall j :: 0 <= j < |flights| ==> Writable(flights[j])
  }

  /** The stamping adds only column keys, so the stamped flight fits the
      table exactly when the flight does. */
  lemma StampedWritable(f: Record, stored: Option<seq<TrailPoint>>, now: int)
    requires Saveable(f)
    ensures PrepareForWrite(f, stored, now).Keys <= Columns <==> Writable(f)
  {
    KeyColumns();
  }

  /** The outcome of one iteration of the save loop. */
  datatype Step = Step(rows: map<string, Row>, written: Record, ok: bool)

  /** One iteration: merge the trail, stamp the flight and write it, replacing
      the row when the fetch was detailed or no row exists and otherwise
      coalescing into it. A key that is not a column makes the write fail. */
  function SaveStep(rows: map<string, Row>, f: Record, now: int): (s: Step)
    requires TableOk(rows) && Saveable(f)
    ensures TableOk(s.rows)
    ensures s.ok <==> Writable(f)
    ensures !s.ok ==> s.rows == rows
  {
    var id := f["flight_id"].s;
    var g := PrepareForWrite(f, OldTrail(rows, id), now);
    if !Writable(f) then Step(rows, g, false)
    else
      StampedWritable(f, OldTrail(rows, id), now);
      WrittenRowSpec(rows, f, OldTrail(rows, id), now);
      WriteKeepsTable(rows, id, WrittenRow(rows, f, g));
      Step(rows[id := WrittenRow(rows, f, g)], g, true)
  }

  /** A save step succeeds exactly for a writable flight, keeps the table
      well formed, touches only the flight's own row, and leaves in it the
      merged trail and the fetch time. */
  lemma SaveStepSpec(rows: map<string, Row>, f: Record, now: int)
    requires TableOk(rows) && Saveable(f)
    ensures var s := SaveStep(rows, f, now); var id := f["flight_id"].s;
      && TableOk(s.rows)
      && (s.ok <==> Writable(f))
      && (forall other :: other != id ==>
            (other in s.rows <==> other in rows) && (other in rows ==> s.rows[other] == rows[other]))
      && (s.ok ==> id in s.rows && s.rows[id]["trail_data"] == Trail(MergedTrail(f["trail_data"].p, OldTrail(rows, id)))
                   && s.rows[id]["last_fetch_timestamp"] == Time(now))
      && (!s.ok ==> s.rows == rows)
  {
    var id := f["flight_id"].s;
    var stored := OldTrail(rows, id);
    var g := PrepareForWrite(f, stored, now);
    if Writable(f) {
      StampedWritable(f, stored, now);
      var row := WrittenRow(rows, f, g);
      WrittenRowSpec(rows, f, stored, now);
      WriteKeepsTable(rows, id, row);
    }
  }

  /** The write replaces the row when the fetch was detailed or no row
      exists, and coalesces into the stored row otherwise. */
  lemma WrittenRowCases(rows: map<string, Row>, f: Record, g: Record)
    requires TableOk(rows) && Saveable(f)
    ensures IsDetailed(f) || f["flight_id"].s !in rows ==> WrittenRow(rows, f, g) == ReplacedRow(g)
    ensures !IsDetailed(f) && f["flight_id"].s in rows ==>
      WrittenRow(rows, f, g) == CoalescedRow(rows[f["flight_id"].s], g)
  {
  }

  /** A write of the stamped flight is the save step. */
  lemma WriteIsStep(rows: map<string, Row>, f: Record, now: int)
    requires TableOk(rows) && Saveable(f)
    requires PrepareForWrite(f, OldTrail(rows, f["flight_id"].s), now).Keys <= Columns
    ensures var g := PrepareForWrite(f, OldTrail(rows, f["flight_id"].s), now);
      SaveStep(rows, f, now) == Step(rows[f["flight_id"].s := WrittenRow(rows, f, g)], g, true)
  {
    StampedWritable(f, OldTrail(rows, f["flight_id"].s), now);
  }

  /** The row a successful write leaves. */
  function WrittenRow(rows: map<string, Row>, f: Record, g: Record): Row
    requires TableOk(rows) && Saveable(f)
  {
    var id := f["flight_id"].s;
    if IsDetailed(f) || id !in rows then ReplacedRow(g) else CoalescedRow(rows[id], g)
  }

  lemma WrittenRowSpec(rows: map<string, Row>, f: Record, stored: Option<seq<TrailPoint>>, now: int)
    requires TableOk(rows) && Saveable(f)
    requires PrepareForWrite(f, stored, now).Keys <= Columns
    ensures var row := WrittenRow(rows, f, PrepareForWrite(f, stored, now));
      && RowOk(f["flight_id"].s, row) && TrailBounded(row)
      && row["trail_data"] == Trail(MergedTrail(f["trail_data"].p, stored))
      && row["last_fetch_timestamp"] == Time(now)
  {
    var g := PrepareForWrite(f, stored, now);
    var id := f["flight_id"].s;
    MergedTrailSpec(f["trail_data"].p, stored);
    assert "flight_id" in g && g["flight_id"] == Str(id);
    assert "trail_data" in g && "last_fetch_timestamp" in g;
    if IsDetailed(f) || id !in rows {
      ReplacedRowOk(id, g);
    } else {
      CoalescedRowOk(id, rows[id], g);
    }
  }

  /** A replacing write of a stamped flight leaves a well-formed row. */
  lemma ReplacedRowOk(id: string, g: Record)
    requires "flight_id" in g && g["flight_id"] == Str(id)
    requires "trail_data" in g && g["trail_data"].Trail? && |g["trail_data"].points| <= HistoryWindow
    requires "last_fetch_timestamp" in g
    ensures var row := ReplacedRow(g);
      && RowOk(id, row) && TrailBounded(row)
      && row["trail_data"] == g["trail_data"] && row["last_fetch_timestamp"] == g["last_fetch_timestamp"]
  {
    KeyColumns();
  }

  /** A coalescing write of a stamped flight into a well-formed row leaves one. */
  lemma CoalescedRowOk(id: string, stored: Row, g: Record)
    requires RowOk(id, stored)
    requires "trail_data" in g && g["trail_data"].Trail? && |g["trail_data"].points| <= HistoryWindow
    requires "last_fetch_timestamp" in g && g["last_fetch_timestamp"] != Null
    ensures var row := CoalescedRow(stored, g);
      && RowOk(id, row) && TrailBounded(row)
      && row["trail_data"] == g["trail_data"] && row["last_fetch_timestamp"] == g["last_fetch_timestamp"]
  {
    KeyColumns();
  }

  /** The columns the save step writes by name. */
  lemma KeyColumns()
    ensures "flight_id" in Columns && "trail_data" in Columns
    ensures "last_fetch_timestamp" in Columns && "last_fetch_timestamp_details" in Columns
  {
  }

  lemma WriteKeepsTable(rows: map<string, Row>, id: string, row: Row)
    requires TableOk(rows) && RowOk(id, row) && TrailBounded(row)
    ensures TableOk(rows[id := row])
  {
  }

  /** A coalescing write keeps the stored value wherever the new one is NULL or
      absent, and never changes the id. */
  lemma SaveStepCoalesces(rows: map<string, Row>, f: Record, now: int)
    requires TableOk(rows) && Saveable(f)
    requires f["flight_id"].s in rows && !IsDetailed(f)
    ensures var s := SaveStep(rows, f, now); var id := f["flight_id"].s;
      s.ok ==>
        && s.rows[id]["flight_id"] == rows[id]["flight_id"]
        && forall c :: c in Columns && Get(s.written, c) == Null ==> s.rows[id][c] == rows[id][c]
  {
  }

  /** The table after saving `flights` in order, the flights as the loop left
      them, and the count returned: the number of flights on success, 0 after
      the first failing write, which ends the loop. */
  datatype SaveResult = SaveResult(rows: map<string, Row>, count: nat, flights: seq<Record>, ok: bool)

  predicate AllSaveable(flights: seq<Record>) {
    forall i :: 0 <= i < |flights| ==> Saveable(flights[i])
  }

  /** The run over `flights[i..]`: each flight in turn, stopping at the first
      failing write. */
  function SaveFrom(rows: map<string, Row>, flights: seq<Record>, i: nat, now: int): (r: SaveResult)
    requires TableOk(rows) && AllSaveable(flights) && i <= |flights|
    ensures TableOk(r.rows)
    ensures r.ok ==> r.count == |flights| - i
    ensures !r.ok ==> r.count == 0
    ensures |r.flights| == |flights| - i
    decreases |flights| - i
  {
    if i == |flights| then SaveResult(rows, 0, [], true)
    else
      var s := SaveStep(rows, flights[i], now);
      if !s.ok then SaveResult(rows, 0, [s.written] + flights[i + 1..], false)
      else
        var rest := SaveFrom(s.rows, flights, i + 1, now);
        SaveResult(rest.rows, if rest.ok then rest.count + 1 else 0, [s.written] + rest.flights, rest.ok)
  }

  function SaveAll(rows: map<string, Row>, flights: seq<Record>, now: int): (r: SaveResult)
    requires TableOk(rows) && AllSaveable(flights)
    ensures TableOk(r.rows)
    ensures r.ok <==> AllWritable(flights)
    ensures r.ok ==> r.count == |flights|
    ensures !r.ok ==> r.count == 0
    ensures |r.flights| == |flights|
  {
    SaveFromOk(rows, flights, 0, now);
    SaveFrom(rows, flights, 0, now)
  }

  /** The run from `i` succeeds exactly when every remaining flight is writable. */
  lemma {:induction false} SaveFromOk(rows: map<string, Row>, flights: seq<Record>, i: nat, now: int)
    requires TableOk(rows) && AllSaveable(flights) && i <= |flights|
    ensures SaveFrom(rows, flights, i, now).ok <==> forall j :: i <= j < |flights| ==> Writable(flights[j])
    decreases |flights| - i
  {
    if i < |flights| {
      if Writable(flights[i]) {
        SaveFromSucceeds(rows, flights, i, now);
        SaveFromOk(SaveStep(rows, flights[i], now).rows, flights, i + 1, now);
        WritableFromCons(flights, i);
      } else {
        SaveFromFails(rows, flights, i, now);
      }
    }
  }

  /** An unwritable flight at `i` ends the run from `i`: the table is as it
      was, the flight is left stamped and the later flights untouched. */
  lemma SaveFromFails(rows: map<string, Row>, flights: seq<Record>, i: nat, now: int)
    requires TableOk(rows) && AllSaveable(flights) && i < |flights|
    requires !Writable(flights[i])
    ensures SaveFrom(rows, flights, i, now)
         == SaveResult(rows, 0, [PrepareForWrite(flights[i], OldTrail(rows, flights[i]["flight_id"].s), now)] + flights[i + 1..], false)
  {
  }

  /** `r` stopped with a failure at its position `m`, where the flight `f`
      was left stamped against the table of `p`, a successful run over the
      flights before it with the same table; the flights after it are `tail`. */
  predicate StoppedAt(r: SaveResult, p: SaveResult, m: nat, f: Record, now: int, tail: seq<Record>) {
    && !r.ok && r.count == 0 && r.rows == p.rows && p.ok
    && m < |r.flights| && r.flights[..m] == p.flights
    && Saveable(f) && r.flights[m] == PrepareForWrite(f, OldTrail(p.rows, f["flight_id"].s), now)
    && r.flights[m + 1..] == tail
  }

  /** A run that meets an unwritable flight at `k` after writable ones from
      `i` leaves the table as the run over the flights before `k` does, which
      succeeds; flight `k` is left stamped and the later ones untouched. */
  lemma {:induction false} SaveFromStopsAt(rows: map<string, Row>, flights: seq<Record>, i: nat, k: nat, now: int)
    requires TableOk(rows) && AllSaveable(flights) && i <= k < |flights|
    requires forall j :: i <= j < k ==> Writable(flights[j])
    requires !Writable(flights[k])
    ensures AllSaveable(flights[..k])
    ensures StoppedAt(SaveFrom(rows, flights, i, now), SaveFrom(rows, flights[..k], i, now), k - i, flights[k], now, flights[k + 1..])
    decreases k - i
  {
    PrefixSaveable(flights, k);
    if i == k {
      StopsHere(rows, flights, k, now);
    } else {
      var s := SaveStep(rows, flights[i], now);
      SaveFromStopsAt(s.rows, flights, i + 1, k, now);
      SaveFromSucceedsBoth(rows, flights, i, k, now);
      StoppedAfterWrite(SaveFrom(rows, flights, i, now), SaveFrom(rows, flights[..k], i, now),
                        SaveFrom(s.rows, flights, i + 1, now), SaveFrom(s.rows, flights[..k], i + 1, now),
                        s.written, k - (i + 1), k - i, flights[k], now, flights[k + 1..]);
    }
  }

  /** An unwritable flight `k` stops the run that starts at it, while the run
      over the flights before it is empty and leaves the table alone. */
  lemma StopsHere(rows: map<string, Row>, flights: seq<Record>, k: nat, now: int)
    requires TableOk(rows) && AllSaveable(flights) && k < |flights|
    requires AllSaveable(flights[..k])
    requires !Writable(flights[k])
    ensures StoppedAt(SaveFrom(rows, flights, k, now), SaveFrom(rows, flights[..k], k, now), 0, flights[k], now, flights[k + 1..])
  {
    SaveFromFails(rows, flights, k, now);
    var g := PrepareForWrite(flights[k], OldTrail(rows, flights[k]["flight_id"].s), now);
    assert ([g] + flights[k + 1..])[1..] == flights[k + 1..];
  }

  /** A writable flight `i` before `k` is written the same way by the run
      over all flights and by the run over the flights before `k`. */
  lemma SaveFromSucceedsBoth(rows: map<string, Row>, flights: seq<Record>, i: nat, k: nat, now: int)
    requires TableOk(rows) && AllSaveable(flights) && i < k <= |flights|
    requires AllSaveable(flights[..k])
    requires Writable(flights[i])
    ensures var s := SaveStep(rows, flights[i], now);
      && SaveFrom(rows, flights, i, now) == Resume(SaveFrom(s.rows, flights, i + 1, now), 1, [s.written])
      && SaveFrom(rows, flights[..k], i, now) == Resume(SaveFrom(s.rows, flights[..k], i + 1, now), 1, [s.written])
  {
    assert flights[..k][i] == flights[i];
    SaveFromSucceeds(rows, flights, i, now);
    SaveFromSucceeds(rows, flights[..k], i, now);
  }

  /** The flights before `k` of saveable flights are saveable. */
  lemma PrefixSaveable(flights: seq<Record>, k: nat)
    requires AllSaveable(flights) && k <= |flights|
    ensures AllSaveable(flights[..k])
  {
    assert forall j :: 0 <= j < k ==> flights[..k][j] == flights[j];
  }

  /** A successful write in front of a stopped run and of the successful run
      over the same prefix keeps them in step. */
  lemma StoppedAfterWrite(r: SaveResult, p: SaveResult, r1: SaveResult, p1: SaveResult, w: Record, m: nat, m': nat,
                          f: Record, now: int, tail: seq<Record>)
    requires r == Resume(r1, 1, [w])
    requires p == Resume(p1, 1, [w])
    requires m' == m + 1
    requires StoppedAt(r1, p1, m, f, now, tail)
    ensures StoppedAt(r, p, m', f, now, tail)
  {
    assert r.flights == [w] + r1.flights;
    assert r.flights[..m'] == [w] + r1.flights[..m];
    assert r.flights[m' + 1..] == r1.flights[m + 1..];
  }

  /** Saving stops at the first unwritable flight `k` and returns 0; the
      table is left as saving the flights before `k` leaves it, flight `k`
      stamped and the later flights untouched. */
  lemma SaveAllStopsAt(rows: map<string, Row>, flights: seq<Record>, k: nat, now: int)
    requires TableOk(rows) && AllSaveable(flights) && k < |flights|
    requires forall j :: 0 <= j < k ==> Writable(flights[j])
    requires !Writable(flights[k])
    ensures AllSaveable(flights[..k])
    ensures var r := SaveAll(rows, flights, now); var p := SaveAll(rows, flights[..k], now);
      && r.count == 0 && r.rows == p.rows && p.count == k
      && r.flights[..k] == p.flights
      && r.flights[k] == PrepareForWrite(flights[k], OldTrail(p.rows, flights[k]["flight_id"].s), now)
      && r.flights[k + 1..] == flights[k + 1..]
  {
    SaveFromStopsAt(rows, flights, 0, k, now);
  }

  /** Some flight from position `i` on carries the id. */
  predicate Mentions(flights: seq<Record>, i: nat, id: string) {
    exists j :: i <= j < |flights| && Get(flights[j], "flight_id") == Str(id)
  }

  /** The row of `id` exists and carries the fetch time `now`. */
  predicate Stamped(rows: map<string, Row>, id: string, now: int) {
    id in rows && Get(rows[id], "last_fetch_timestamp") == Time(now)
  }

  /** The rows of ids no flight of the run carries stay as they were. */
  lemma {:induction false} SaveFromFrame(rows: map<string, Row>, flights: seq<Record>, i: nat, now: int)
    requires TableOk(rows) && AllSaveable(flights) && i <= |flights|
    ensures var r := SaveFrom(rows, flights, i, now);
      forall id :: !Mentions(flights, i, id) ==> (id in r.rows <==> id in rows) && (id in rows ==> r.rows[id] == rows[id])
    decreases |flights| - i
  {
    if i < |flights| {
      if Writable(flights[i]) {
        var s := SaveStep(rows, flights[i], now);
        SaveStepSpec(rows, flights[i], now);
        SaveFromSucceeds(rows, flights, i, now);
        SaveFromFrame(s.rows, flights, i + 1, now);
        forall id | !Mentions(flights, i, id) ensures !Mentions(flights, i + 1, id) && flights[i]["flight_id"].s != id {
          assert Get(flights[i], "flight_id") == Str(flights[i]["flight_id"].s);
        }
      } else {
        SaveFromFails(rows, flights, i, now);
      }
    }
  }

  /** A run keeps every row stamped with `now`, and a successful run leaves
      the row of each of its flights stamped with `now`. */
  lemma {:induction false} SaveFromStamps(rows: map<string, Row>, flights: seq<Record>, i: nat, now: int)
    requires TableOk(rows) && AllSaveable(flights) && i <= |flights|
    ensures var r := SaveFrom(rows, flights, i, now);
      forall id :: Stamped(rows, id, now) ==> Stamped(r.rows, id, now)
    ensures var r := SaveFrom(rows, flights, i, now);
      r.ok ==> forall j :: i <= j < |flights| ==> Stamped(r.rows, flights[j]["flight_id"].s, now)
    decreases |flights| - i
  {
    if i < |flights| {
      if Writable(flights[i]) {
        var s := SaveStep(rows, flights[i], now);
        StepStamps(rows, flights[i], now);
        SaveFromSucceeds(rows, flights, i, now);
        SaveFromStamps(s.rows, flights, i + 1, now);
        var r := SaveFrom(rows, flights, i, now);
        var rest := SaveFrom(s.rows, flights, i + 1, now);
        assert r.rows == rest.rows && r.ok == rest.ok;
        if r.ok {
          forall j | i <= j < |flights| ensures Stamped(r.rows, flights[j]["flight_id"].s, now) {
            if j == i {
              assert Stamped(s.rows, flights[i]["flight_id"].s, now);
            }
          }
        }
      } else {
        SaveFromFails(rows, flights, i, now);
      }
    }
  }

  /** A successful step stamps its own row and keeps the other stamps. */
  lemma StepStamps(rows: map<string, Row>, f: Record, now: int)
    requires TableOk(rows) && Saveable(f) && Writable(f)
    ensures var s := SaveStep(rows, f, now);
      && Stamped(s.rows, f["flight_id"].s, now)
      && forall id :: Stamped(rows, id, now) ==> Stamped(s.rows, id, now)
  {
    SaveStepSpec(rows, f, now);
    var s := SaveStep(rows, f, now);
    KeyColumns();
    assert Get(s.rows[f["flight_id"].s], "last_fetch_timestamp") == Time(now);
  }

  /** After saving, a successful run leaves the row of every saved flight
      stamped with the save time, and the rows of other ids untouched. */
  lemma SaveAllSpec(rows: map<string, Row>, flights: seq<Record>, now: int)
    requires TableOk(rows) && AllSaveable(flights)
    ensures var r := SaveAll(rows, flights, now);
      && (r.ok ==> forall j :: 0 <= j < |flights| ==> Stamped(r.rows, flights[j]["flight_id"].s, now))
      && (forall id :: !Mentions(flights, 0, id) ==> (id in r.rows <==> id in rows) && (id in rows ==> r.rows[id] == rows[id]))
  {
    SaveFromStamps(rows, flights, 0, now);
    SaveFromFrame(rows, flights, 0, now);
  }

  lemma WritableFromCons(flights: seq<Record>, i: nat)
    requires i < |flights| && Writable(flights[i])
    ensures (forall j :: i <= j < |flights| ==> Writable(flights[j]))
        <==> (forall j :: i + 1 <= j < |flights| ==> Writable(flights[j]))
  {
  }

  /** The count of a run: every flight when all are writable, 0 otherwise. */
  lemma SaveAllCount(rows: map<string, Row>, flights: seq<Record>, now: int)
    requires TableOk(rows) && AllSaveable(flights)
    ensures SaveAll(rows, flights, now).count == if AllWritable(flights) then |flights| else 0
  {
  }

  /** How a run over `flights[i..]` extends a run over the first `i` flights
      that all succeeded. */
  function Resume(tail: SaveResult, i: nat, done: seq<Record>): SaveResult {
    SaveResult(tail.rows, if tail.ok then tail.count + i else 0, done + tail.flights, tail.ok)
  }

  /** Reported as recently detailed: the details timestamp parses and is less
      than `maxAgeMinutes` minutes old. */
  predicate DetailRecent(row: Row, now: int, maxAgeMinutes: int) {
    var v := Get(row, "last_fetch_timestamp_details");
    v.Time? && now - v.seconds < maxAgeMinutes * 60
  }

  function RecentlyDetailed(rows: map<string, Row>, now: int, maxAgeMinutes: int): set<string> {
    set id | id in rows && DetailRecent(rows[id], now, maxAgeMinutes)
  }

  /** A detailed fetch that was written is reported as recent by the filter
      for any positive age limit, at the time of the save. */
  lemma DetailedSaveIsRecent(rows: map<string, Row>, f: Record, now: int, maxAgeMinutes: int)
    requires TableOk(rows) && Saveable(f) && IsDetailed(f) && maxAgeMinutes > 0
    requires SaveStep(rows, f, now).ok
    ensures f["flight_id"].s in RecentlyDetailed(SaveStep(rows, f, now).rows, now, maxAgeMinutes)
  {
    var id := f["flight_id"].s;
    var g := PrepareForWrite(f, OldTrail(rows, id), now);
    assert "last_fetch_timestamp_details" in Columns;
    assert ReplacedRow(g)["last_fetch_timestamp_details"] == Time(now);
  }

  /** A row whose details timestamp does not parse is never reported. */
  lemma UnparsableNeverRecent(rows: map<string, Row>, id: string, now: int, maxAgeMinutes: int)
    requires id in rows && !Get(rows[id], "last_fetch_timestamp_details").Time?
    ensures id !in RecentlyDetailed(rows, now, maxAgeMinutes)
  {
  }

  /** The rows `cleanup_old_flights` deletes: a fetch time before the cutoff.
      A NULL fetch time compares as unknown and the row stays. */
  predicate Stale(row: Row, cutoff: int) {
    var v := Get(row, "last_fetch_timestamp");
    v.Time? && v.seconds < cutoff
  }

  function WithoutStale(rows: map<string, Row>, cutoff: int): (r: map<string, Row>)
    ensures r.Keys <= rows.Keys
    ensures forall id :: id in r ==> r[id] == rows[id] && !Stale(rows[id], cutoff)
    ensures forall id :: id in rows && !Stale(rows[id], cutoff) ==> id in r
  {
    map id | id in rows && !Stale(rows[id], cutoff) :: rows[id]
  }

  function StaleCount(rows: map<string, Row>, cutoff: int): nat {
    |rows.Keys - WithoutStale(rows, cutoff).Keys|
  }

  /** `daysThreshold` days before now (seven by default), in seconds. */
  function Cutoff(now: int, daysThreshold: int): int {
    now - daysThreshold * 86400
  }

  /** A table holding one row last fetched at time 0 loses that row to a cleanup
      at any later cutoff, so one row is deleted; the as-written cleanup still
      reports an empty result. */
  lemma CleanupDeletesOneRow(row: Row, cutoff: int)
    requires Get(row, "last_fetch_timestamp") == Time(0) && cutoff > 0
    ensures StaleCount(map["a" := row], cutoff) == 1
  {
    var rows := map["a" := row];
    assert WithoutStale(rows, cutoff).Keys == {};
    assert rows.Keys == {"a"};
  }

  /** The stamping in the save loop: merge the trail, set the fetch times and
      drop the details flag. */
  method StampForWrite(f: Record, stored: Option<seq<TrailPoint>>, now: int) returns (g: Record)
    requires Saveable(f)
    ensures g == PrepareForWrite(f, stored, now)
  {
    var trail := MergeTrail(f["trail_data"].p, stored);
    g := f["trail_data" := Trail(trail)]["last_fetch_timestamp" := Time(now)];
    if IsDetailed(f) {
      g := g["last_fetch_timestamp_details" := Time(now)];
    }
    g := g - {Fetch.DetailsFetchedKey};
  }

  lemma SucceededStep(whole: SaveResult, rows: map<string, Row>, flights: seq<Record>, i: nat,
                      done: seq<Record>, now: int)
    requires TableOk(rows) && AllSaveable(flights) && i < |flights|
    requires whole == Resume(SaveFrom(rows, flights, i, now), i, done)
    requires SaveStep(rows, flights[i], now).ok
    ensures var s := SaveStep(rows, flights[i], now);
      whole == Resume(SaveFrom(s.rows, flights, i + 1, now), i + 1, done + [s.written])
  {
    var s := SaveStep(rows, flights[i], now);
    SaveFromSucceeds(rows, flights, i, now);
    ResumeChain(whole, SaveFrom(rows, flights, i, now), SaveFrom(s.rows, flights, i + 1, now), i, done, s.written);
  }

  /** A successful write at `i` is followed by the run from `i + 1`. */
  lemma SaveFromSucceeds(rows: map<string, Row>, flights: seq<Record>, i: nat, now: int)
    requires TableOk(rows) && AllSaveable(flights) && i < |flights|
    requires SaveStep(rows, flights[i], now).ok
    ensures var s := SaveStep(rows, flights[i], now);
      SaveFrom(rows, flights, i, now) == Resume(SaveFrom(s.rows, flights, i + 1, now), 1, [s.written])
  {
  }

  lemma FailedStep(whole: SaveResult, rows: map<string, Row>, flights: seq<Record>, i: nat,
                   done: seq<Record>, now: int)
    requires TableOk(rows) && AllSaveable(flights) && i < |flights|
    requires whole == Resume(SaveFrom(rows, flights, i, now), i, done)
    requires !SaveStep(rows, flights[i], now).ok
    ensures var s := SaveStep(rows, flights[i], now);
      whole == SaveResult(rows, 0, done + [s.written] + flights[i + 1..], false)
  {
  }

  lemma ResumeChain(whole: SaveResult, mid: SaveResult, tail: SaveResult, i: nat, done: seq<Record>, w: Record)
    requires whole == Resume(mid, i, done) && mid == Resume(tail, 1, [w])
    ensures whole == Resume(tail, i + 1, done + [w])
  {
    assert done + ([w] + tail.flights) == (done + [w]) + tail.flights;
  }

  // ---------------------------------------------------------------------------
  // The table

  class FlightTable {
    var rows: map<string, Row>

    ghost predicate Valid()
      reads this
    {
      TableOk(rows)
    }

    constructor()
      ensures rows == map[] && Valid()
    {
      rows := map[];
    }

    /** `save_flights_to_db`: the flights are saved in order and each is left
        as it was written (the source updates the caller's dictionaries). */
    method SaveFlights(flights: seq<Record>, now: int) returns (count: nat, written: seq<Record>)
      requires Valid() && AllSaveable(flights)
      modifies this
      ensures Valid()
      ensures SaveAll(old(rows), flights, now) == SaveResult(rows, count, written, SaveAll(old(rows), flights, now).ok)
      ensures count == if AllWritable(flights) then |flights| else 0
    {
      count := 0;
      written := [];
      var i := 0;
      while i < |flights|
        invariant 0 <= i <= |flights|
        invariant TableOk(rows) && count == i && |written| == i
        invariant SaveAll(old(rows), flights, now) == Resume(SaveFrom(rows, flights, i, now), i, written)
      {
        ghost var before := rows;
        var ok, g := WriteFlight(flights[i], now);
        if !ok {
          FailedStep(SaveAll(old(rows), flights, now), rows, flights, i, written, now);
          written := written + [g] + flights[i + 1..];
          count := 0;
          SaveAllCount(old(rows), flights, now);
          return;
        }
        SucceededStep(SaveAll(old(rows), flights, now), before, flights, i, written, now);
        written := written + [g];
        count := count + 1;
        i := i + 1;
      }
      SaveAllCount(old(rows), flights, now);
    }

    /** One iteration of the save loop: stamp the flight, then replace its row
        when the fetch was detailed or no row exists, and coalesce into the
        stored row otherwise; a key that is not a column makes the write fail
        and leaves the table as it was. */
    method WriteFlight(f: Record, now: int) returns (ok: bool, g: Record)
      requires Valid() && Saveable(f)
      modifies this
      ensures Valid()
      ensures SaveStep(old(rows), f, now) == Step(rows, g, ok)
    {
      var id := f["flight_id"].s;
      var known := id in rows;
      g := StampForWrite(f, OldTrail(rows, id), now);
      StampedWritable(f, OldTrail(rows, id), now);
      if !(g.Keys <= Columns) {
        return false, g;
      }
      var row;
      if IsDetailed(f) || !known {
        row := ReplacedRow(g);
      } else {
        row := CoalescedRow(rows[id], g);
      }
      WrittenRowCases(rows, f, g);
      WriteIsStep(rows, f, now);
      rows := rows[id := row];
      ok := true;
    }

    /** `get_flights_with_details_fetched`: the ids whose details timestamp
        parses and is recent. The source lists them in row order; here they
        form a set. */
    method FlightsWithDetailsFetched(now: int, maxAgeMinutes: int) returns (ids: set<string>)
      ensures ids == RecentlyDetailed(rows, now, maxAgeMinutes)
      ensures forall id :: id in ids <==> id in rows && DetailRecent(rows[id], now, maxAgeMinutes)
    {
      ids := {};
      var pending := rows.Keys;
      while pending != {}
        invariant pending <= rows.Keys
        invariant ids == set id | id in rows && id !in pending && DetailRecent(rows[id], now, maxAgeMinutes)
        decreases pending
      {
        var id :| id in pending;
        if DetailRecent(rows[id], now, maxAgeMinutes) {
          ids := ids + {id};
        }
        pending := pending - {id};
      }
    }

    /** `cleanup_old_flights` as written: the stale rows are deleted, but the
        value returned is the fetched result of the DELETE statement, which is
        always the empty list, not the number of rows deleted. */
    method CleanupOldFlights(now: int, daysThreshold: int) returns (result: seq<Row>)
      requires Valid()
      modifies this
      ensures Valid()
      ensures rows == WithoutStale(old(rows), Cutoff(now, daysThreshold))
      ensures result == []
    {
      rows := WithoutStale(rows, Cutoff(now, daysThreshold));
      result := [];
    }

    /** The cleanup as documented: the same deletion, returning how many rows
        it removed. */
    method CleanupOldFlightsCounted(now: int, daysThreshold: int) returns (deleted: nat)
      requires Valid()
      modifies this
      ensures Valid()
      ensures rows == WithoutStale(old(rows), Cutoff(now, daysThreshold))
      ensures deleted == StaleCount(old(rows), Cutoff(now, daysThreshold))
      ensures deleted == |old(rows).Keys| - |rows.Keys|
    {
      var before := rows;
      rows := WithoutStale(rows, Cutoff(now, daysThreshold));
      deleted := StaleCount(before, Cutoff(now, daysThreshold));
      assert |before.Keys - rows.Keys| == |before.Keys| - |rows.Keys| by {
        SetDifferenceSize(before.Keys, rows.Keys);
      }
    }
  }

  lemma SetDifferenceSize<T>(a: set<T>, b: set<T>)
    requires b <= a
    ensures |a - b| == |a| - |b|
  {
    assert a == (a - b) + b;
    assert (a - b) !! b;
  }
}
