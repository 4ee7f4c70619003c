# muni-traffic, modelled in Dafny

muni-traffic collects San Francisco Muni vehicle positions from the NextBus
public JSON feed and analyses them offline. This project models its core
and proves properties of the model:

- **Feed client** (`muni.dfy`, with `decimal.dfy` for JavaScript's
  `parseInt(s, 10)`). It turns a vehicle-locations or route-list response
  into a result or a thrown error. The response is given as its HTTP status
  and its decoded JSON body. Each raw vehicle entry is parsed field by field.
- **Route pollers** (`poller.dfy`). Each poller owns a watermark, the
  `$lastTime` of its closure:
  - it starts five minutes before the clock reading and sleeps a jittered
    interval around 7 seconds;
  - each cycle fetches since the watermark and, on success, overwrites the
    watermark with the feed's `lastTime`;
  - each cycle then sleeps a jittered interval.

  One poller runs per whitelisted route. A fleet of pollers is a map from
  route tag to watermark, and each cycle touches only its own entry.
- **Batch insert** (`db.dfy`, with `text.dfy` for `join` and `repeat`).
  This is the sequence of SQL commands `insertVehicleLocations` issues:
  - `begin transaction`;
  - one nine-column insert per location, in order, each reading the clock
    itself;
  - `commit`.

  An optional fault says which command throws. A throwing command ends the
  call, with no rollback.
- **Analysis helpers** (`analyze.dfy`):
  - `row_to_dict`;
  - `group_by`, as an order-preserving partition;
  - `within_box`, a strict bounding-box test;
  - `fill_mean_speed`. It skips the first row and keeps the last ten earlier
    rows of each vehicle. For every later row it sets `speedKmHr_3`,
    `speedKmHr_5` and `speedKmHr_10` from the earliest remembered position
    inside each window, or to None when there is none.

Modelling choices:

- JavaScript numbers that can be NaN are `Option<int>`, with `None` for NaN.
- `parseFloat` results are opaque (`Muni.Float`).
- The clock, `Math.random()`, the geodesic distance and the database's
  failures are inputs.
- Python's `ZeroDivisionError` in `fill_mean_speed` is an explicit outcome.

## Model

| member | source | states |
|---|---|---|
| Decimal.ParseInt | src/muni.ts:56-57 | `parseInt(s, 10)` is NaN exactly when no digit follows the leading white space and optional sign; the empty string is NaN |
| Decimal.ParseIntOfDecimal | src/muni.ts:107 | round trip: parsing the decimal spelling of any natural number gives that number back |
| Decimal.ParseIntOfDecimalPrefix | src/muni.ts:56 | a numeral followed by anything that is not a digit ("12.5", "12px") parses to the numeral's value |
| Decimal.ParseIntOfDigits | src/muni.ts:107 | a non-empty all-digit string, leading zeros allowed, parses to its digit value |
| Decimal.ParseIntOfNegativeDecimal | src/muni.ts:57 | a leading minus sign negates the parsed value |
| Decimal.ParseIntSkipsSpace | src/muni.ts:56 | a leading JavaScript white-space character does not change the result |
| Decimal.ParseIntOfNonNumeric | src/muni.ts:56 | a string starting with something other than white space, a sign or a digit (such as "true") is NaN |
| Decimal.ParseIntWithoutDigits | src/muni.ts:59 | a string with no digit anywhere is NaN |
| Muni.ParseRawVehicleLocation | src/muni.ts:49-60 | as written: `id` and `routeTag` copied, `lon`/`lat` parsed as floats, the integer fields are `parseInt` of their own strings, and `predictable` holds exactly when `raw.lon` is "true" |
| Muni.ParseRawVehicleLocationCorrected | src/muni.ts:55 | the intended parser: `predictable` holds exactly when `raw.predictable` is "true", every other field as in the as-written parser |
| Muni.TrueIsNotANumber | src/muni.ts:55 | "true" does not parse as an integer, so it can never be a numeric `lon` |
| Muni.NumericLonIsNeverPredictable | src/muni.ts:55 | whenever `lon` holds a number, the as-written parser says unpredictable, whatever the `predictable` field says |
| Muni.ParsersDifferOnlyInPredictable | src/muni.ts:52-59 | the two parsers agree exactly when `lon` and `predictable` agree on being "true", and they never differ in any other field |
| Muni.PredictableVehicleParsedUnpredictable | src/muni.ts:55 | an entry with `lon` "-122.4" and `predictable` "true" is parsed unpredictable as written and predictable when corrected |
| Muni.ParseAll | src/muni.ts:113 | the parsed list has the entries' length and order, element i being the parse of entry i |
| Muni.ParseAllCorrected | src/muni.ts:113 | the corrected parser mapped over the entries, in order |
| Muni.GetVehicleLocationsCorrected | src/muni.ts:101-118 | with the corrected parser the call fails exactly when the as-written one does, with the same error and `lastTime`, and each entry differs at most in `predictable`, which follows the entry's own `predictable` field |
| Muni.GetRouteList | src/muni.ts:74-78 | succeeds exactly on status 200 with the body's `route` member; any other status is a thrown error |
| Muni.GetVehicleLocations | src/muni.ts:101-118 | non-200 throws; an `Error` object throws with its content; otherwise success exactly when `lastTime` is present, with `lastTime` parsed by `parseInt`, no locations when `vehicle` is absent, and each entry parsed in order otherwise |
| Muni.ErrorWinsOverVehicles | src/muni.ts:103-104 | with an `Error` object the call throws the same error whatever `vehicle` holds |
| Muni.LastTimeRoundTrip | src/muni.ts:105-112 | a body whose `lastTime.time` is the decimal spelling of t succeeds and reports exactly t |
| Muni.IntegerFieldsRoundTrip | src/muni.ts:56-59 | `speedKmHr`, `heading` and `secsSinceReport` written as decimal numerals are read back as those numbers |
| Text.Repeat | src/db.ts:22 | `R.repeat(x, n)` has n elements, each equal to x |
| Text.SplitJoin | src/db.ts:24 | splitting a joined non-empty list at the separator gives the list back when no element contains the separator |
| Text.Join | src/db.ts:22-24 | `xs.join(sep)` starts with the first element, ends with the last, and is at least one character per gap long; its inverse is `Text.SplitJoin` |
| Text.PlaceholderCount | src/db.ts:22 | joining n copies of "?" with a separator other than "?" writes exactly n question marks |
| Text.JoinAvoids | src/db.ts:24 | a join introduces no character other than its elements' and the separator |
| Db.ColumnsInOrder | src/db.ts:11-21 | the insert names nine columns, in the order `vehicleId`, `time`, `lon`, `routeTag`, `predictable`, `speedKmHr`, `heading`, `lat`, `secsSinceReport` |
| Db.ColumnNames | src/db.ts:11-21 | one name per column, in column order, each the column's own spelling |
| Db.EpochSeconds | src/db.ts:27 | `Math.floor(nowMs / 1000)` is the whole number of seconds s with 1000·s ≤ nowMs < 1000·s + 1000 |
| Db.InsertVehicleLocation | src/db.ts:7-37 | one insert into `vehicle_locations` naming the column list, with one bound value per column |
| Db.InsertValuesAligned | src/db.ts:11-35 | the value bound in position i is the one the reference column table gives for column i: id, clock seconds, `lon.toString()`, route tag, predictable flag, speed, heading, `lat.toString()`, secs since report |
| Db.ColumnNamesAreClean | src/db.ts:11-21 | no column name contains a comma or a question mark |
| Db.InsertStatement | src/db.ts:22-24 | the insert text begins `INSERT INTO ` and the table name and ends with the closing parenthesis of the placeholder list |
| Db.Sql | src/db.ts:23-47 | the text is `begin transaction` exactly for a begin and `commit` exactly for a commit, so an insert is never mistaken for either |
| Db.InsertStatementPlaceholders | src/db.ts:22-24 | an insert whose table and column names have no question mark contains exactly one per column |
| Db.InsertTextPlaceholders | src/db.ts:22-24 | the `vehicle_locations` insert contains exactly nine question marks |
| Db.InsertIsNotTransactionControl | src/db.ts:43-47 | an insert's text is neither `begin transaction` nor `commit` |
| Db.ColumnListRoundTrip | src/db.ts:24 | the statement's comma-joined column list splits back into the column names |
| Db.InsertShape | src/db.ts:11-35 | nine columns, spelled out by the column list, with as many placeholders as bound values |
| Db.RowsReadTheClockSeparately | src/db.ts:27 | two rows inserted at clock readings 999 and 1000 get different `time` values, so a batch has no shared timestamp |
| Db.Inserts | src/db.ts:44-46 | one insert per location, in input order, row i inserted at its own clock reading `clock[i]` |
| Db.InsertVehicleLocations | src/db.ts:39-48 | without a fault: begin, the inserts in order, commit; a failed begin leaves nothing; a failed insert k leaves begin and inserts 0..k-1; a failed commit leaves begin and all inserts; commit is issued exactly when no command fails, and no rollback ever |
| Poller.GetWaitTime | src/index.ts:17-20 | with a draw in [0, 1) the wait lies in [base − spread/2, base + spread/2) for a positive spread, is the base for a zero spread, and lies in the mirrored interval for a negative one |
| Poller.JitterBounds | src/index.ts:20 | `Math.random() * spread` lies in [0, spread) for a positive spread |
| Poller.WaitTimeCoversInterval | src/index.ts:17-20 | every point of the wait interval is the wait of exactly one draw in [0, 1), so the wait is uniform when the draw is |
| Poller.WaitTimeIncreasesWithDraw | src/index.ts:17-20 | a larger draw gives a strictly longer wait |
| Poller.Start | src/index.ts:39-40 | the watermark starts at nowMs − 300000 and the first sleep is around 7 seconds, not the base wait |
| Poller.Advance | src/index.ts:45-52 | the watermark stays exactly when the fetch failed or reported the time already held; any change is to the feed's `lastTime` |
| Poller.CycleOn | src/index.ts:41-56 | a cycle fetches since the current watermark, then sleeps a jittered interval; the watermark becomes the fetch's `lastTime` on success and stays on failure |
| Poller.Cycle | src/index.ts:44-55 | given the response, a failure leaves the poller unchanged, a success sets the watermark to the reported `lastTime`, and a sleep always follows the fetch |
| Poller.FeedErrorKeepsWatermark | src/index.ts:50-55 | a feed error keeps the watermark even when entries came with it, and the poller goes on to sleep |
| Poller.WatermarkCanMoveBack | src/index.ts:45-47 | a successful fetch reporting an older `lastTime` moves the watermark back: no maximum is taken |
| Poller.Outcomes | src/index.ts:45-46 | fetch i yields the feed client's interpretation of response i |
| Poller.Watermarks | src/index.ts:45-52 | the reference watermark history has one entry per fetch plus the final one, starting from the initial watermark |
| Poller.WatermarksStep | src/index.ts:45-52 | each entry of the reference watermark history is the previous one advanced by that cycle's outcome |
| Poller.RunCycles | src/index.ts:41-56 | a run of n cycles keeps the route, performs 2n actions and ends on the last entry of the watermark history |
| Poller.RunCyclesFetches | src/index.ts:45-55 | fetch i asks for data since the i-th watermark of the history, and a sleep follows each fetch |
| Poller.RunCyclesUnfold | src/index.ts:41-56 | a run is the first cycle's fetch and sleep followed by the run of the remaining responses from the poller that cycle leaves |
| Poller.RunPoller | src/index.ts:33-56 | a poller sleeps first, then fetches since nowMs − 300000, and performs 1 + 2n actions over n responses, ending on the history's last watermark |
| Poller.MonotoneFeedGivesMonotoneWatermark | src/index.ts:45-47 | if every reported `lastTime` is at least the start and the reported times never decrease, the watermark history never decreases |
| Poller.RegressingFeedRegressesWatermark | src/index.ts:45-47 | conversely, a success reporting a time below the current watermark makes the history decrease |
| Poller.SampleEntryParsed | src/muni.ts:49-60 | the entry with speed "12" and heading "90" is read as 12 and 90 and, with `predictable` "true", is parsed unpredictable |
| Poller.FirstTimestamp | src/muni.ts:107 | "1700000000000" parses to 1700000000000 |
| Poller.SecondTimestamp | src/muni.ts:107 | "1700000100000" parses to 1700000100000 |
| Poller.OneVehicleResponse | src/index.ts:45-47 | a one-vehicle response moves the watermark to 1700000000000 and yields one location with speed 12, heading 90 and `predictable` lost |
| Poller.OneVehicleResponseCorrected | src/muni.ts:101-114 | with the corrected parser the same response stores the vehicle as predictable, with speed 12 and heading 90, and the watermark becomes 1700000000000 |
| Poller.CorrectedParserKeepsWatermark | src/index.ts:45-52 | the watermark after a cycle is the same whichever parser interprets the response |
| Poller.NoVehicleResponse | src/muni.ts:105-109 | a response without `vehicle` yields no locations and still moves the watermark to 1700000100000 |
| Poller.FeedErrorResponse | src/muni.ts:103-104 | an "invalid route" error fails with that content and leaves the poller unchanged |
| Poller.StartFleet | src/index.ts:60 | one poller per given tag, each starting five minutes before its own clock reading |
| Poller.WhitelistFleet | src/index.ts:7-60 | the program's fleet has pollers for exactly "J", "N", "M" and "K", each starting five minutes before its own clock reading |
| Poller.FleetStep | src/index.ts:39-47 | a cycle of one route sets that route's watermark as its own poller would, and leaves every other route's watermark unchanged |
| Poller.CyclesOfDifferentRoutesCommute | src/index.ts:60 | cycles of two different routes give the same watermarks in either completion order |
| Poller.FleetRun | src/index.ts:60 | interleaved cycles keep the set of routes |
| Poller.Replay | src/index.ts:41-56 | replaying a route's outcomes ends on the last entry of its watermark history |
| Poller.FleetRunIsPerRoute | src/index.ts:39-60 | however the routes' cycles interleave, each route ends on the watermark its own poller computes from its own responses alone |
| Analyze.RowToDict | analyze/analyze.py:39-40 | the keys are exactly the names paired with a value, `zip` stopping at the shorter list |
| Analyze.RowToDictLastWins | analyze/analyze.py:39-40 | a name maps to the value paired with its last occurrence |
| Analyze.RowToDictRoundTrip | analyze/analyze.py:39-40 | with distinct names and one value per name, reading the names back out of the dictionary gives the row |
| Analyze.Bucket | analyze/analyze.py:61-65 | a key's reference bucket holds at most the input's rows |
| Analyze.GroupBy | analyze/analyze.py:61-65 | a key is present exactly when its reference bucket is non-empty, and holds the rows with that key in input order |
| Analyze.BucketIsEmptyIff | analyze/analyze.py:61-65 | a bucket is empty exactly when no row has its key |
| Analyze.BucketCounts | analyze/analyze.py:61-65 | each row sits in its own key's bucket as often as it occurs in the input, and in no other bucket |
| Analyze.BucketSizesSumToLength | analyze/analyze.py:61-65 | the bucket sizes of all keys, each counted once, sum to the input length |
| Analyze.WithinBox | analyze/analyze.py:72-74 | strictly inside on both axes; only a box whose south edge lies below its north edge and whose west edge lies left of its east edge holds any point (converse: `Analyze.NonEmptyBoxes`) |
| Analyze.EdgesAreOutside | analyze/analyze.py:72-74 | a point on an edge of the box is outside it |
| Analyze.NonEmptyBoxes | analyze/analyze.py:72-74 | a box holds some point exactly when south < north and west < east |
| Analyze.SpeedKey | analyze/analyze.py:104 | the key of a window is its length in whole minutes, as Python 2 integer division gives it |
| Analyze.Window | analyze/analyze.py:102-103 | the window keeps only positions inside it, is empty exactly when none is inside, and starts with the earliest one inside |
| Analyze.SpeedFor | analyze/analyze.py:102-114 | a window's estimate divides by zero only when some remembered position has the row's own time, and a speed is known only from a remembered position inside the window with a different time |
| Analyze.SpeedUnknownIff | analyze/analyze.py:101-114 | a window's estimate is None exactly when no remembered position lies inside it |
| Analyze.SpeedZeroElapsedIff | analyze/analyze.py:105-111 | the division by zero happens exactly when the earliest position inside the window has the row's own time |
| Analyze.SpeedFromEarliest | analyze/analyze.py:105-112 | a known speed is the distance from the earliest position inside the window over the hours elapsed since it |
| Analyze.FillKeys | analyze/analyze.py:101-114 | filling a row's windows never changes its position |
| Analyze.FillKeysRaises | analyze/analyze.py:101-114 | filling a row raises exactly when some window divides by zero |
| Analyze.FillKeysSetsKeys | analyze/analyze.py:101-114 | when no window divides by zero, each window's key holds that window's estimate |
| Analyze.FillKeysKeepsOthers | analyze/analyze.py:101-114 | keys other than the windows' are left as they were |
| Analyze.Remember | analyze/analyze.py:115 | appending to a full deque of ten keeps ten entries; otherwise it grows by one |
| Analyze.RecentSnoc | analyze/analyze.py:96 | the bounded deque after an append holds the last ten rows appended |
| Analyze.History | analyze/analyze.py:96-100 | a vehicle's memo entry holds at most ten rows |
| Analyze.HistoryIsOwnEarlierRows | analyze/analyze.py:97-100 | only the vehicle's own rows, after the first and before the current one, are consulted |
| Analyze.FirstRowIsNeverRemembered | analyze/analyze.py:97 | the first row never enters any vehicle's memo |
| Analyze.HistoryStep | analyze/analyze.py:115 | remembering row i extends its own vehicle's memo and no other |
| Analyze.MemoStep | analyze/analyze.py:98-115 | after the append, every vehicle's memo is its history up to the next row |
| Analyze.FillMeanSpeed | analyze/analyze.py:89-115 | the rows keep their positions and the first is untouched; without error every later row is filled from its vehicle's history; on a division by zero the earlier rows are filled, the failing row keeps the keys set before the failure, and later rows are untouched |
| Analyze.FilledKeysAreKnownIff | analyze/analyze.py:101-114 | after filling without error, every window's key is present and is None exactly when no remembered position lies inside the window |
| Analyze.FilledRowKeys | analyze/analyze.py:90-114 | every row filled without error carries `speedKmHr_3`, `speedKmHr_5` and `speedKmHr_10`, each None exactly when no remembered position of its vehicle lies inside that window |

## Left out

- HTTP requests and query strings (src/muni.ts:63-72, 88-99): network I/O. The response status and decoded body are inputs.
- `parseFloat` for `lon` and `lat`: floating-point parsing. The values are known only by their text, and `toString()` of them is bound as that opaque value. The opaque value is finer than a JavaScript number: "-122.4" and "-122.40" stay distinct, though `parseFloat(...).toString()` gives "-122.4" for both; no property here depends on that.
- JavaScript numbers that hold integers (times, speeds, headings, secsSinceReport) are unbounded integers here. Above 2^53 `parseInt` loses precision; the model does not.
- Poller.GetWaitTime: the wait is computed over exact reals, not IEEE doubles. In doubles, base 60, spread 10 and the draw 1 − 2^-52 round to exactly 65.0, so the strict upper bound of this contract (and of `Poller.Start`, `Poller.CycleOn` and `Poller.Cycle`) does not hold for the running program.
- Poller.WaitTimeIncreasesWithDraw: proved over reals; in doubles two distinct draws such as 1 − 2^-52 and 1 − 2^-51 can round to the same wait, so the increase is only non-strict there.
- Poller.WaitTimeCoversInterval: proved over reals; in doubles only finitely many waits occur, several draws can share one, and the upper end of the interval can be reached.
- The JSON shape of `vehicle` is a list. The feed sending a single object instead is not modelled.
- White space follows ECMAScript's StrWhiteSpaceChar list, with no other Unicode handling.
- sqlite and `openDB` (src/db.ts:23, 50-51): a foreign library. Only the command trace is modelled, and which command throws is an input.
- `sleep`, `setTimeout`, `moment()`, `Date.now()` and `Math.random()`: the clock readings and random draws are parameters, and sleeps are output actions.
- `P.map` concurrency (src/index.ts:60): interleaving is modelled as any order of per-route cycles, not as timing.
- The endless `while (true)` loop is modelled over a finite list of responses.
- Console logging and the unused `debug` helper (src/index.ts:22-28, 38, 43, 48-49, 51, 54): output only.
- geopy distance and `get_bounding_box`: float geodesy. The distance is a function parameter of `fill_mean_speed`.
- pytz, `datetime_to_epoch`, `epoch_to_datetime`, numpy and scipy statistics, the `get_locations` query and the `__main__` block: time zones, numerics and I/O.
- Python floats are reals: no rounding, NaN or infinity.
- A row is modelled as a position plus a map of speed keys; other columns are not read by the analysis.
- The memo's `defaultdict` entries are created on first lookup. That does not change any result and is not modelled.
- Aliasing is not modelled. The same row object appearing twice in the input would be mutated through both occurrences in the source.
- Poller.Watermarks: its own contract states only the history's length and first entry; its meaning is stated by `Poller.WatermarksStep`.
- Analyze.FillKeys: its own contract states only that the position is kept; the keys are stated by `Analyze.FillKeysRaises`, `Analyze.FillKeysSetsKeys` and `Analyze.FillKeysKeepsOthers`.
- Poller.FleetStep: the sleep's random draw is fixed at 0, since the fleet keeps only watermarks.

Behaviour of the code worth stating explicitly:

- The code overwrites the watermark with whatever the feed reports; no maximum is taken, so it can move backwards (`Poller.WatermarkCanMoveBack`).
- The code issues no rollback: a failed insert leaves the earlier inserts of a transaction that is never closed (`Db.InsertVehicleLocations`).
- The code reads the clock once per row, so the rows of one batch can carry different timestamps (`Db.RowsReadTheClockSeparately`).
- The code stores NaN (`None`) for a malformed numeric field instead of failing the response.
- The code's poller never writes to the database; storing a batch is a separate operation.

## Findings

| source | as written | input that shows it | evidently intended | confidence | as-written member | corrected member |
|---|---|---|---|---|---|---|
| src/muni.ts:55 | `predictable: raw.lon === 'true'` | an entry with `lon` "-122.4" and `predictable` "true" is parsed with `predictable` false | `predictable: raw.predictable === 'true'` | high; not executed | Muni.ParseRawVehicleLocation, Muni.PredictableVehicleParsedUnpredictable, Muni.NumericLonIsNeverPredictable | Muni.ParseRawVehicleLocationCorrected, Muni.GetVehicleLocationsCorrected, Poller.OneVehicleResponseCorrected |
