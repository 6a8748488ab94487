# flyby33: a verified model of the per-aircraft pipeline

flyby33 watches the airspace around a point of interest (the *origin*) and
predicts which aircraft will fly over it. Each refresh cycle does the following:
- It fetches the aircraft in range, with retries and exponential backoff.
- It merges each aircraft's detailed record into its basic one.
- It stores one new trail point per aircraft in a SQLite table that keeps the
  six newest points.
- It fills missing airline and airport names from reference tables.
- It selects the aircraft whose details were fetched recently.
- It deletes rows older than a week.
- It turns each stored row into a display record. The stored trail and the
  detail trail are fused into a current fix and a six-point window, and the
  record is scored for a flyby.

This project models that pipeline in Dafny and proves what the code
promises about it. The model follows `main.py` and `sql_utils.py`:

- `Values` (values.dfy): trail points, coordinates, the loosely typed values in flight dictionaries, Python truthiness and `dict.get`.
- `Trails` (trails.dfy): orderings on trails and the stable newest-first sort (`sorted(..., reverse=True)`, `list.sort`).
- `TrailFusion` (trail_fusion.dfy): the fusion of `trail_data + trail_data_details` in `prepare_flight_list`.
- `Heading` (heading.dfy): `is_plane_heading_towards_origin`, `bearing_to_compass` and `calculate_straight_heading_chance`.
- `Flyby` (flyby.dfy): `calculate_flyby_chance` and the gate of `_process_flyby_data`.
- `Fetch` (fetch.dfy): the retry loops `_fetch_flight_details` and `_fetch_flights_with_retry`, and the detail merge of `_process_flight`.
- `JsonPath` (json_path.dfy): `get_nested`.
- `Display` (display.dfy): `truncate_string`, `format_location`, the "-" placeholders and `standardize_flight_keys`.
- `Prepare` (prepare.dfy): the loop of `prepare_flight_list`.
- `FlightStore` (flight_store.dfy): the flights table as a class holding a map from flight id to row: `save_flights_to_db`, `get_flights_with_details_fetched` and `cleanup_old_flights`.
- `Enrichment` (enrichment.dfy): `enrich_missing_flight_data_from_db`.

Modelling choices:
- **Records.** A flight dictionary is a `map<string, Value>`. A missing key
  reads as None, as `dict.get` does.
- **Stored rows.** A stored row holds all 17 columns, and SQL NULL is `Null`.
  JSON encoding of the trail and coordinate columns is lossless, so a column
  holds the decoded value.
- **Timestamps.** They are whole seconds. A timestamp column holding
  `Time(s)` stands for a well-formed "%Y-%m-%d %H:%M:%S" string. Any other
  value does not parse.
- **Collaborators.** Geodesy (bearing, distance, the cross-track test, the
  flyby description), reverse geocoding, unit conversion and the `exp`
  weights come from outside the model. They are parameters:
  `Flyby.Geodesy`, `Prepare.Collaborators`, and an `int -> Positive` weight
  function.
- **Service outcomes.** The outcomes of calls to the flight service
  are a given sequence.
- **Clocks.** "Now" is a parameter wherever the source reads the clock.
  `Prepare.PrepareFlightList` reads it once per flight through a `clock`
  function.
- **Where the code raises.** These paths become explicit `None` results:
  - `[0]` of an empty fused list
  - a stored trail that is neither a list nor empty
  - a failing write

The description of the system says an aircraft with an empty fused window is
skipped for the cycle. The code indexes `[0]` without a guard, so the
exception ends the whole preparation. The model follows the code:
`Prepare.PrepareAll` is `None` as soon as one flight has no recent point.

## Model

| member | source | states |
|---|---|---|
| Trails.SortByTsDescOrdered | main.py:1371 | the newest-first sort keeps exactly the input's timestamps and orders them non-increasingly |
| Trails.SortByTsDescStrict | main.py:1371 | with pairwise distinct timestamps the sorted trail is strictly descending |
| TrailFusion.DedupByTs | main.py:1358-1359 | the comprehension that threads `seen_ts` computes the first-occurrence deduplication |
| TrailFusion.UniqueByTsSpec | main.py:1358-1359 | deduplication leaves pairwise distinct timestamps, loses none, and keeps for each the first point carrying it |
| TrailFusion.RecentOnlySpec | main.py:1364-1368 | the age filter keeps exactly the points at or after the threshold and preserves distinctness |
| TrailFusion.RankedSpec | main.py:1355-1371 | the ranked list is strictly newest first and holds exactly the recent input timestamps, each by its first point |
| TrailFusion.FusedFailsIffNothingRecent | main.py:1373 | fusion fails exactly when every input point is older than six minutes |
| TrailFusion.FusedWindowOrdered | main.py:1371-1374 | the window has 1 to 6 recent points, strictly newest first, starting with the current fix |
| TrailFusion.FusedKeepsFirstOccurrence | main.py:1355-1359 | each window point is the first point of `trail_data + trail_data_details` with its timestamp |
| TrailFusion.FusedWindowIsNewest | main.py:1371-1374 | the fix is the newest recent point; every recent timestamp is in the window or older than all six window points |
| TrailFusion.FuseTrail | main.py:1348-1374 | the per-flight fusion yields the window and fix, or fails exactly when nothing is recent |
| Heading.AngularDifference | main.py:285-286 | the wrap-corrected difference of two directions in [0, 360) lies in [0, 180] |
| Heading.AngularDifferenceFacts | main.py:285-286 | the difference is symmetric and is zero exactly for equal directions |
| Heading.AngularDifferenceAcrossNorth | main.py:426 | a turn from 358 to 2 degrees is a 4-degree change |
| Heading.HeadingTowardsExtremes | main.py:274-288 | pointing at the origin passes the test; pointing away fails under half a turn; a half-turn tolerance accepts every heading |
| Heading.HeadingTowardsMonotone | main.py:288 | widening the tolerance never turns a yes into a no |
| Heading.TruncToInt | main.py:393 | `int()` truncates toward zero |
| Heading.BearingToCompass | main.py:385-394 | the result is one of the eight compass points |
| Heading.CompassSector | main.py:392-394 | each point names the 45-degree sector centred on its direction, round the compass |
| Heading.CompassPeriodic | main.py:393 | a full turn does not change the name for bearings from -22.5 up |
| Heading.CompassBelowRange | main.py:393 | below -22.5 truncation toward zero names -30 "N" but 330 "NW" |
| Heading.StraightHeadingChance | main.py:407-444 | the loop over heading pairs computes the stability score, which lies in [0, 1] |
| Heading.StraightHeadingChanceOf | main.py:433-444 | the score is clamped to [0, 1] |
| Heading.PairChangesInRange | main.py:421-427 | every collected change lies in [0, 180] for headings in [0, 360) |
| Heading.PairChangesEmptyIff | main.py:421-434 | no change is collected exactly when no pair carries both headings |
| Heading.PairChangesZeroIff | main.py:421-427 | all collected changes are zero exactly when every pair with both headings has equal headings |
| Heading.AverageChangeBounds | main.py:437-439 | the weighted mean change lies in [0, 180] for any positive weights |
| Heading.StraightHeadingChanceFull | main.py:433-444 | the score is 0 without a heading pair, and is 1 exactly when all observed headings are steady |
| Heading.StraightHeadingChanceZero | main.py:442 | a mean change at or beyond the maximum scores 0 |
| Flyby.ProximityFactor | main.py:472-473 | the proximity factor always lies between 0.1 and 1 |
| Flyby.SpeedFactor | main.py:488-491 | the speed factor lies in [0.1, 1] |
| Flyby.HeadingFactor | main.py:475-485 | the heading factor lies in [0.3, 1] and is 0.3 with at most one trail point |
| Flyby.FlybyChance | main.py:448-514 | inside the flyby radius the chance is exactly 1 with no factors; outside it is 0.6p + 0.25h + 0.15s of the bounded factors, in [0.15, 1] |
| Flyby.ProximityFactorMonotone | main.py:472-473 | a closer aircraft never has a lower proximity factor |
| Flyby.SpeedFactorMonotone | main.py:490-491 | a faster aircraft never has a lower speed factor |
| Flyby.FlybyChanceMonotoneInDistance | main.py:463-505 | coming closer never lowers the chance, across the flyby radius too |
| Flyby.FlybyChanceMonotoneInSpeed | main.py:488-505 | flying faster never lowers the chance |
| Flyby.SteadyTrailFullHeading | main.py:478-485 | a trail with steady observed headings earns the full heading factor |
| Flyby.SingleTrailScore | main.py:472-505 | a concrete score: 150 km out of 200, 10 km radius, 450 km/h, one trail point |
| Flyby.EtaSeconds | main.py:608-610 | the ETA is the timestamp plus distance/speed hours, rounded down to whole seconds, and is not before the timestamp |
| Flyby.ProcessFlybyData | main.py:517-619 | the gate verdicts follow position, heading and geodesy; the aircraft counts as closer to the airport exactly when both verdicts hold, the distance and destination are known and the destination is nearer than the distance to the origin; chance and description are present together, exactly when both verdicts hold, the distance is known, the airport check passes or is off, and scoring does not raise; the chance is then the flyby score of the trails, distance, both radii and speed (0 when unknown) with a maximum mean heading change of 10, and the description is the geodesy's flyby text for the position, heading and origin; the ETA needs a chance, positive speed and a timestamp |
| Flyby.HeadingAwayGetsNoPrediction | main.py:551-555 | an aircraft heading more than 90 degrees off the origin gets no chance, description or ETA |
| Flyby.InsideRadiusScoresOne | main.py:463-468 | a gated aircraft inside the flyby radius scores exactly 1 with no factors |
| Fetch.Backoff | main.py:804 | the waits after failures are 1, 2, 4, ... seconds |
| Fetch.BackoffTotal | main.py:804-805 | waiting after n failures takes 2^n - 1 seconds in all |
| Fetch.FirstSuccess | main.py:793-797 | the index found is the first successful outcome, and none exists when it is absent |
| Fetch.FirstSuccessStable | main.py:797 | a success once found is not moved by later outcomes |
| Fetch.RetryWithBackoff | main.py:793-805 | at most `max_retries` attempts; a wait of 2^(k-1) after each failed attempt k except the last; the first success is returned; None after all attempts fail |
| Fetch.RetriedWaits | main.py:793-805 | success on attempt k+1 follows 2^k - 1 seconds of waiting; complete failure waits after all but the last attempt |
| Fetch.ThirdAttemptSucceeds | main.py:793-805 | two failures then a success return the third value after waits of 1 and 2 seconds |
| Fetch.FetchFlightDetails | main.py:783-805 | five attempts, at most four waits of at most 15 seconds in all |
| Fetch.FetchFlightsWithRetry | main.py:808-828 | three attempts, at most two waits of at most 3 seconds in all |
| Fetch.MergeDetails | main.py:772-773 | details fill only absent or None fields, every basic non-None field is kept, and the record is marked as detailed |
| Fetch.MergeDetailsIdempotent | main.py:772-773 | merging the same details again changes nothing |
| JsonPath.Split | main.py:206 | splitting gives at least one piece and no piece holds a dot |
| JsonPath.JoinSplit | main.py:206 | joining the pieces restores the path |
| JsonPath.SplitJoin | main.py:206 | splitting a join of dot-free keys restores the keys |
| JsonPath.GetNested | main.py:204-214 | the loop computes the key-by-key lookup; the result is the default or neither None nor "" |
| JsonPath.LookupFound | main.py:207-214 | a lookup along at least one key gives the default or a value that is neither None nor "" |
| JsonPath.LookupConcat | main.py:207-214 | with default None, looking up a path and then another is looking up their concatenation |
| JsonPath.TwoLevelLookup | main.py:204-214 | a non-empty value two levels down is found by its dotted path |
| Display.PyPrefix | main.py:402 | Python's `s[:k]` is a prefix of `s` |
| Display.TruncateString | main.py:397-404 | None passes through, a short string is kept, a long one keeps `max - 1` characters plus "..", giving `max + 1` characters |
| Display.TruncateStringExceedsLimit | main.py:401-402 | a 22-character name is shortened to 21 characters under the limit of 20 |
| Display.TruncateToLimit | main.py:397-404 | the corrected shortening never exceeds the limit and keeps the prefix when it shortens |
| Display.TruncateToLimitIdempotent | main.py:397-404 | shortening twice is shortening once |
| Display.FormatLocation | main.py:1399-1402 | "City (CODE)" with a city, "(CODE)" without, "-" without a code |
| Display.FormatLocationPlaceholderIff | main.py:1399-1402 | the label is "-" exactly when the code is missing, whatever the city |
| Display.DashForNone | main.py:1442-1444 | the keys are kept, no display field holds None afterwards, a value changes exactly where a display field held None, and every changed value is "-" |
| Display.DashForNoneClears | main.py:1442-1444 | afterwards no display field holds None, and the replacement is idempotent |
| Display.KeyPairsInjective | main.py:1458-1483 | no two mapping entries share a key or a title |
| Display.OriginalRename | main.py:1485 | renaming a key that is not a title can be undone |
| Display.StandardizeKeys | main.py:1485 | every key is renamed to its title and keeps its value |
| Display.StandardizeKeysInvertible | main.py:1485 | renaming the titles back gives the original keys and values |
| Display.StandardizeFlightKeys | main.py:1451-1487 | each flight of the list is standardized, in order |
| Prepare.PrepareFlightFailsIff | main.py:1350-1373 | preparing a flight fails exactly on a malformed stored trail or when no stored point is recent |
| Prepare.KeySetsDisjoint | main.py:1408-1439 | dropped, computed and flyby keys do not overlap |
| Prepare.PreparedRecordKeys | main.py:1407-1439 | the record holds the surviving stored keys and the computed ones, never a bookkeeping key |
| Prepare.PreparedRecordKeepsFields | main.py:1407-1444 | every other stored field is kept, with "-" for a None display field, and no display field holds None |
| Prepare.PreparedRecordWindow | main.py:1412-1425 | the record carries the fused window and the fix's time |
| Prepare.FlybyFields | main.py:1428-1439 | the flyby columns hold the chance, description and ETA or "-", and the three gate verdicts as booleans |
| Prepare.FlybyFieldsGated | main.py:1428-1439 | a numeric chance lies in [0.15, 1] and comes with both verdicts true and, unless the airport check is off, with the closer-to-airport flag false |
| Prepare.PreparedRecordFlyby | main.py:1428-1439 | the record carries the gate's chance, description, ETA, closer-to-airport flag, heading verdict and radius verdict |
| Prepare.PreparedRecordSpec | main.py:1348-1446 | a prepared record drops bookkeeping keys, carries a 1-to-6-point recent window strictly newest first and its head's time, and keeps the other fields |
| Prepare.PreparedFlybyGated | main.py:1428-1439 | a "-" chance comes with "-" description and ETA; a numeric chance is in [0.15, 1] and comes with both gate verdicts true and, unless the airport check is off, with the aircraft not closer to the airport |
| Prepare.PrepareFlightCases | main.py:1350-1374 | one iteration fails on a malformed trail or an empty fusion and otherwise yields the prepared record |
| Prepare.PrepareAll | main.py:1346-1448 | all flights are prepared in order, or the result is None exactly when some flight cannot be |
| Prepare.PrepareAllFails | main.py:1373 | one flight that cannot be prepared makes the whole preparation fail |
| Prepare.PrepareFlightList | main.py:1333-1448 | the loop computes the list function |
| FlightStore.WithoutTs | sql_utils.py:192-194 | the old points kept carry another timestamp than the new point's and come from the stored trail |
| FlightStore.WithoutTsSet | sql_utils.py:192-194 | the kept timestamps are the stored ones minus the new point's |
| FlightStore.WithoutTsDistinct | sql_utils.py:192-194 | distinct stored timestamps stay distinct |
| FlightStore.MergeTrail | sql_utils.py:188-201 | the collecting loop and in-place sort give the merged trail, of 1 to 6 points |
| FlightStore.MergedTrailSpec | sql_utils.py:188-201 | 1 to 6 points, each the new one or an old one with another timestamp; newest first when old points were read, strictly so when they were distinct; with old points read, as many points as the candidates allow up to six, and a cut candidate is no newer than the last point kept |
| FlightStore.MergedTrailKept | sql_utils.py:190-201 | the cut keeps min(6, candidates) points, keeps every candidate when they fit, and drops only candidates no newer than the last point kept |
| FlightStore.NewestPointLeads | sql_utils.py:188-195 | a new point at least as recent as every old one heads the merged trail |
| FlightStore.PrepareForWrite | sql_utils.py:200-213 | merged trail, fetch time now, details time now only when detailed, details flag removed, other fields unchanged |
| FlightStore.StampForWrite | sql_utils.py:200-213 | the stamping statements compute the written flight |
| FlightStore.ReplacedRow | sql_utils.py:217-220 | INSERT OR REPLACE gives every column the flight's value or NULL |
| FlightStore.CoalescedRow | sql_utils.py:222-227 | COALESCE keeps the stored value where the new one is NULL or absent and never changes `flight_id` |
| FlightStore.StampedWritable | sql_utils.py:200-216 | the stamped flight's keys are all columns exactly when the flight's keys other than the details flag are |
| FlightStore.SaveStep | sql_utils.py:180-234 | one iteration keeps the table well formed, succeeds exactly when every key but the details flag is a column, and a failed write changes nothing |
| FlightStore.SaveStepSpec | sql_utils.py:180-234 | a save succeeds exactly when every key but the details flag is a column, touches only its own row, leaves the merged trail and the fetch time in it, and a failed write changes nothing |
| FlightStore.SaveStepCoalesces | sql_utils.py:217-227 | an update into an existing row for a basic fetch keeps every column the flight leaves NULL, and the id |
| FlightStore.SaveFrom | sql_utils.py:180-236 | the run from one position keeps the table well formed, returns one written flight per remaining flight, and counts the remaining flights on success, 0 after a failure |
| FlightStore.SaveFromOk | sql_utils.py:180-234 | the run from one position succeeds exactly when every remaining flight is writable |
| FlightStore.SaveFromFails | sql_utils.py:229-232 | an unwritable flight ends the run with count 0, the table as it was, the stamped flight and the later flights untouched |
| FlightStore.SaveFromStopsAt | sql_utils.py:180-236 | a run meeting its first unwritable flight leaves the table as the successful run over the flights before it, that flight stamped against that table and the later flights untouched |
| FlightStore.SaveAll | sql_utils.py:168-236 | the save succeeds exactly when every flight is writable; the count is then the number of flights and 0 otherwise |
| FlightStore.SaveAllStopsAt | sql_utils.py:168-236 | with a first unwritable flight k, the count is 0, the table is that of saving the k flights before it (which counts k), flight k is stamped against that table and the later flights are untouched |
| FlightStore.SaveAllCount | sql_utils.py:177-236 | the count is the number of flights when all are writable and 0 otherwise |
| FlightStore.SaveFromFrame | sql_utils.py:180-234 | rows of ids no remaining flight names are neither added, removed nor changed |
| FlightStore.SaveFromStamps | sql_utils.py:176-202 | rows already stamped with this save's time stay so, and a successful run stamps the row of every remaining flight |
| FlightStore.SaveAllSpec | sql_utils.py:168-236 | a successful save stamps every flight's row with the save time, and rows of other ids are left as they were |
| FlightStore.FlightTable.WriteFlight | sql_utils.py:180-232 | one loop iteration performs the save step: the new table and the reported outcome are those of the step |
| FlightStore.FlightTable.SaveFlights | sql_utils.py:168-236 | the loop leaves the table, count and written flights of the in-order save, stopping at the first failing write; the count is the number of flights when all are writable and 0 otherwise |
| FlightStore.DetailedSaveIsRecent | sql_utils.py:150-156 | a saved detailed fetch is reported as recent at the time of the save |
| FlightStore.UnparsableNeverRecent | sql_utils.py:150-156 | a missing or unparsable details timestamp is never reported |
| FlightStore.FlightTable.FlightsWithDetailsFetched | sql_utils.py:140-165 | an id is returned exactly when its details timestamp parses and is less than the age limit old |
| FlightStore.WithoutStale | sql_utils.py:422-425 | exactly the rows fetched before the cutoff are removed, the others kept unchanged |
| FlightStore.FlightTable.CleanupOldFlights | sql_utils.py:412-433 | stale rows are deleted and, as written, the result is the empty fetch of the DELETE |
| FlightStore.CleanupDeletesOneRow | sql_utils.py:425-430 | a cleanup that deletes one row, for which the as-written result is still empty |
| FlightStore.FlightTable.CleanupOldFlightsCounted | sql_utils.py:412-433 | the corrected cleanup returns the number of rows it deleted |
| Enrichment.Index | sql_utils.py:313-318 | the lookup dictionaries hold exactly the truthy keys of the reference rows |
| Enrichment.IndexLastWins | sql_utils.py:314 | for a repeated key the last row wins |
| Enrichment.Fill | sql_utils.py:328-334 | a field is written from the table only when it is falsy and its code is truthy and known |
| Enrichment.FillDestination | sql_utils.py:337-343 | the destination city is filled like the others; the coordinates only inside that branch, when missing and both airport coordinates are truthy |
| Enrichment.EnrichFlight | sql_utils.py:327-343 | only the four fillable fields can appear or change; every other field is kept |
| Enrichment.EnrichFlightAirline | sql_utils.py:328-329 | the airline name changes only by being filled from the airline table |
| Enrichment.EnrichFlightOrigin | sql_utils.py:332-334 | the origin city changes only by being filled from the airport table |
| Enrichment.EnrichFlightDestination | sql_utils.py:337-343 | the destination city and coordinates change only by being filled from the airport table, the coordinates only in the city branch |
| Enrichment.EnrichFlightKeepsTruthy | sql_utils.py:328-343 | a truthy field is never overwritten |
| Enrichment.EnrichFlightIdempotent | sql_utils.py:327-343 | enriching an enriched flight changes nothing |
| Enrichment.ChangedBySpec | sql_utils.py:345-347 | exactly the flights the enrichment changed are returned, enriched |
| Enrichment.CompleteFlightUnchanged | sql_utils.py:328-347 | a flight with all fillable fields truthy is unchanged and not returned |
| Enrichment.EnrichEach | sql_utils.py:323-347 | the loop updates each flight and collects the changed ones in order |
| Enrichment.EnrichMissingFlightData | sql_utils.py:300-349 | every flight is enriched from the reference tables, the changed ones are returned, none for an empty list |

## Left out

- Geodesy (`calculate_bearing`, `calculate_destination`, `calculate_distance`, `will_plane_pass_within_radius`, `get_flyby_info`), reverse geocoding and unit conversion: floating-point trigonometry and foreign libraries, taken as parameters.
- The `exp` weights of the stability score: any positive weights are allowed.
- Floating point: all arithmetic is on exact reals, so rounding of the score and of unit conversion is not modelled.
- Concurrency: asyncio tasks, the semaphore, `as_completed`, progress bars and `run_in_executor`. The retry loops are modelled sequentially over a given sequence of outcomes.
- The flight service itself and the filtering of the bulk fetch inside `_process_flight` (main.py:679-780): only the detail merge is modelled.
- Map generation, header printing, pandas, CSV and HTML export, logging, debug strings (`flyby_chance_debug` and factor labels formatted to one decimal), configuration parsing and the Streamlit application.
- SQLite plumbing: connections, `execute`, JSON encoding in `load_flights_from_db`, reference-data loading and resetting `sqlite_sequence`.
- Timezone conversion of the fix time and of the ETA: times stay in seconds.
- Flyby.EtaSeconds: drops the fraction of a second, as the source drops microseconds; a `timedelta` overflow is not modelled.
- FlightStore.MergedTrailSpec: the new point can be cut like any other candidate; it is proved present only when it is at least as new as every old point (FlightStore.NewestPointLeads), since with six stored points newer than it the cut to six drops it, as the code does.
- Values.TrailPoint: altitude, speed and timestamp are mandatory numbers. The source reads them with `.get('ts')` and `.get('ts', 0)` (main.py:1359, 1368, 1371), so a point without a timestamp is deduplicated as None and sorted as 0. A missing altitude or speed reaches `feet_to_meters` or `knots_to_kmph` as None and raises a TypeError (main.py:1377-1380). Neither path is modelled.
- FlightStore.OldPoints: a stored trail that fails part-way through the loop (a stored point without `ts`) is not modelled; rows written by the save always hold a list of points.
- FlightStore.SaveStep: the only write failure modelled is a key that is not a column; other database errors are not.
- FlightStore.FlightTable.SaveFlights: requires each flight to hold a text id and a single new point, which the fetch always produces.
- FlightStore.Stale: only well-formed timestamps compare with the cutoff; SQLite's ordering of other text against the cutoff string is not modelled, and NULL never compares.
- FlightStore.FlightTable.CleanupOldFlights: the except branch that prints and returns 0 on a database error is not modelled.
- FlightStore.FlightTable.FlightsWithDetailsFetched: returns a set; the source returns the ids in row order.
- Prepare.Text: a non-string city or code is read as missing. In the source a truthy non-string city with a code makes `city + ' '` raise a TypeError, and a truthy non-string code alone would be formatted; neither is modelled.
- Heading.CompassSector: stated for bearings of -22.5 and up; below that, truncation toward zero shifts the sectors (Heading.CompassBelowRange).

## Findings

| source | as written | input that shows it | evidently intended | confidence | as-written member | corrected member |
|---|---|---|---|---|---|---|
| main.py:401-402 | a string longer than `max_length` keeps `max_length - 1` characters plus "..", one character over the limit | a 22-character name with the default limit 20 comes out with 21 characters | the shortened string fits the limit: `max_length - 2` characters plus ".." | not executed | Display.TruncateStringExceedsLimit | Display.TruncateToLimit |
| sql_utils.py:425-430 | the returned "number of deleted flights" is the fetched result of the DELETE, which is always an empty list | a table with one row last fetched at time 0, cleaned with any later cutoff: one row is deleted and the result is empty | return the number of rows deleted, as the docstring at sql_utils.py:418 says | not executed | FlightStore.CleanupDeletesOneRow | FlightStore.FlightTable.CleanupOldFlightsCounted |
