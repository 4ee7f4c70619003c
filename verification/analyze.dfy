/** The offline analysis of stored positions: rows as dictionaries,
    grouping, the bounding-box test, and the speed estimate that
    `fill_mean_speed` derives from each vehicle's recent positions. */
module Analyze {
  import opened Wrappers

  // ---------------------------------------------------------------------
  // row_to_dict
  // ---------------------------------------------------------------------

  function Min(a: nat, b: nat): nat {
    if a < b then a else b
  }

  /** `{k: v for k, v in zip(names, data)}`: pairs stop at the shorter
      list, and a repeated name keeps the value of its last occurrence. */
  function RowToDict<V>(names: seq<string>, data: seq<V>): (row: map<string, V>)
    ensures row.Keys == set i | 0 <= i < Min(|names|, |data|) :: names[i]
    decreases Min(|names|, |data|)
  {
    var n := Min(|names|, |data|);
    if n == 0 then map[]
    else RowToDict(names[..n - 1], data[..n - 1])[names[n - 1] := data[n - 1]]
  }

  /** No later name repeats `names[i]` within the first `n`. */
  predicate LastOccurrence(names: seq<string>, n: nat, i: nat)
    requires i < n <= |names|
  {
    forall j :: i < j < n ==> names[j] != names[i]
  }

  /** Each name maps to the value paired with its last occurrence. */
  lemma {:induction false} RowToDictLastWins<V>(names: seq<string>, data: seq<V>, i: nat)
    requires i < Min(|names|, |data|) && LastOccurrence(names, Min(|names|, |data|), i)
    ensures RowToDict(names, data)[names[i]] == data[i]
    decreases Min(|names|, |data|)
  {
    var n := Min(|names|, |data|);
    if i < n - 1 {
      assert names[n - 1] != names[i];
      RowToDictLastWins(names[..n - 1], data[..n - 1], i);
    }
  }

  predicate Distinct<K(==)>(xs: seq<K>) {
    forall i, j :: 0 <= i < j < |xs| ==> xs[i] != xs[j]
  }

  /** With distinct column names and one value per column, reading the
      columns back out of the dictionary gives the row again. */
  lemma RowToDictRoundTrip<V>(names: seq<string>, data: seq<V>)
    requires |names| == |data| && Distinct(names)
    ensures var row := RowToDict(names, data);
            && (forall i :: 0 <= i < |names| ==> names[i] in row)
            && seq(|names|, i requires 0 <= i < |names| => row[names[i]]) == data
  {
    var row := RowToDict(names, data);
    forall i | 0 <= i < |names|
      ensures names[i] in row && row[names[i]] == data[i]
    {
      RowToDictLastWins(names, data, i);
    }
  }

  // ---------------------------------------------------------------------
  // group_by
  // ---------------------------------------------------------------------

  /** The rows with key `k`, in input order: the reference partition. */
  function Bucket<T, K(==)>(data: seq<T>, f: T -> K, k: K): (b: seq<T>)
    ensures |b| <= |data|
  {
    if |data| == 0 then []
    else (if f(data[0]) == k then [data[0]] else []) + Bucket(data[1..], f, k)
  }

  lemma {:induction false} BucketSnoc<T, K>(data: seq<T>, x: T, f: T -> K, k: K)
    ensures Bucket(data + [x], f, k) == Bucket(data, f, k) + (if f(x) == k then [x] else [])
  {
    if |data| > 0 {
      assert (data + [x])[1..] == data[1..] + [x];
      BucketSnoc(data[1..], x, f, k);
    } else {
      assert data + [x] == [x];
    }
  }

  /** `groups` holds the reference bucket of every key whose bucket is
      not empty, and no other key. */
  ghost predicate Grouped<T, K(!new)>(groups: map<K, seq<T>>, data: seq<T>, f: T -> K) {
    forall k :: if k in groups then groups[k] == Bucket(data, f, k) && groups[k] != [] else Bucket(data, f, k) == []
  }

  /** `group_by(data, f)`: one list per key, each row appended to the
      list of its own key, in input order. A key is present exactly when
      some row has it (see `BucketIsEmptyIff`). */
  method GroupBy<T, K(==,!new)>(data: seq<T>, f: T -> K) returns (groups: map<K, seq<T>>)
    ensures forall k :: k in groups <==> Bucket(data, f, k) != []
    ensures forall k :: k in groups ==> groups[k] == Bucket(data, f, k)
  {
    groups := map[];
    var i := 0;
    while i < |data|
      invariant 0 <= i <= |data|
      invariant Grouped(groups, data[..i], f)
    {
      var row := data[i];
      var bucket := if f(row) in groups then groups[f(row)] else [];
      GroupStep(groups, data[..i], row, f);
      assert data[..i + 1] == data[..i] + [row];
      groups := groups[f(row) := bucket + [row]];
      i := i + 1;
    }
    assert data[..i] == data;
  }

  /** Appending a row to its key's bucket keeps the grouping exact. */
  lemma GroupStep<T, K(!new)>(groups: map<K, seq<T>>, data: seq<T>, row: T, f: T -> K)
    requires Grouped(groups, data, f)
    ensures Grouped(groups[f(row) := (if f(row) in groups then groups[f(row)] else []) + [row]], data + [row], f)
  {
    forall k
      ensures Bucket(data + [row], f, k) == Bucket(data, f, k) + (if f(row) == k then [row] else [])
    {
      BucketSnoc(data, row, f, k);
    }
  }

  /** A bucket is empty exactly when no row has its key. */
  lemma {:induction false} BucketIsEmptyIff<T, K>(data: seq<T>, f: T -> K, k: K)
    ensures Bucket(data, f, k) == [] <==> forall j :: 0 <= j < |data| ==> f(data[j]) != k
  {
    if |data| > 0 {
      BucketIsEmptyIff(data[1..], f, k);
      assert forall j :: 1 <= j < |data| ==> data[j] == data[1..][j - 1];
    }
  }

  /** Each row sits in the bucket of its own key as often as it occurs in
      the input, and in no other bucket. */
  lemma {:induction false} BucketCounts<T, K>(data: seq<T>, f: T -> K, k: K, x: T)
    ensures multiset(Bucket(data, f, k))[x] == if f(x) == k then multiset(data)[x] else 0
  {
    if |data| > 0 {
      assert data == [data[0]] + data[1..];
      BucketCounts(data[1..], f, k, x);
    }
  }

  /** The sum of the sizes of the buckets named in `ks`. */
  function TotalSize<T, K(==)>(ks: seq<K>, data: seq<T>, f: T -> K): nat {
    if |ks| == 0 then 0 else |Bucket(data, f, ks[0])| + TotalSize(ks[1..], data, f)
  }

  function Hits<K(==)>(ks: seq<K>, k: K): nat {
    if |ks| == 0 then 0 else (if ks[0] == k then 1 else 0) + Hits(ks[1..], k)
  }

  lemma {:induction false} TotalSizeStep<T, K>(ks: seq<K>, data: seq<T>, f: T -> K)
    requires |data| > 0
    ensures TotalSize(ks, data, f) == TotalSize(ks, data[1..], f) + Hits(ks, f(data[0]))
  {
    if |ks| > 0 {
      TotalSizeStep(ks[1..], data, f);
    }
  }

  lemma {:induction false} HitsOfDistinct<K>(ks: seq<K>, k: K)
    requires Distinct(ks) && k in ks
    ensures Hits(ks, k) == 1
  {
    if ks[0] != k {
      HitsOfDistinct(ks[1..], k);
    } else {
      HitsOfAbsent(ks[1..], k);
    }
  }

  lemma {:induction false} HitsOfAbsent<K>(ks: seq<K>, k: K)
    requires k !in ks
    ensures Hits(ks, k) == 0
  {
    if |ks| > 0 {
      HitsOfAbsent(ks[1..], k);
    }
  }

  /** The buckets of any listing of the keys, each key once, add up to
      the whole input: no row is lost or duplicated. */
  lemma {:induction false} BucketSizesSumToLength<T, K>(ks: seq<K>, data: seq<T>, f: T -> K)
    requires Distinct(ks)
    requires forall j :: 0 <= j < |data| ==> f(data[j]) in ks
    ensures TotalSize(ks, data, f) == |data|
  {
    if |data| == 0 {
      TotalSizeOfNothing(ks, f);
    } else {
      TotalSizeStep(ks, data, f);
      HitsOfDistinct(ks, f(data[0]));
      BucketSizesSumToLength(ks, data[1..], f);
    }
  }

  lemma {:induction false} TotalSizeOfNothing<T, K>(ks: seq<K>, f: T -> K)
    ensures TotalSize(ks, [], f) == 0
  {
    if |ks| > 0 {
      TotalSizeOfNothing(ks[1..], f);
    }
  }

  // ---------------------------------------------------------------------
  // within_box
  // ---------------------------------------------------------------------

  datatype BoundingBox = BoundingBox(northLat: real, southLat: real, eastLng: real, westLng: real)

  /** Strictly inside the box on both axes. */
  predicate WithinBox(box: BoundingBox, lat: real, lng: real)
    ensures WithinBox(box, lat, lng) ==> box.southLat < box.northLat && box.westLng < box.eastLng
  {
    && box.southLat < lat < box.northLat
    && box.westLng < lng < box.eastLng
  }

  /** Points on an edge of the box are outside it. */
  lemma EdgesAreOutside(box: BoundingBox, lat: real, lng: real)
    requires lat == box.southLat || lat == box.northLat || lng == box.westLng || lng == box.eastLng
    ensures !WithinBox(box, lat, lng)
  {
  }

  /** A box holds a point exactly when it is not degenerate, its centre
      being one such point. */
  lemma NonEmptyBoxes(box: BoundingBox)
    ensures (exists lat: real, lng: real :: WithinBox(box, lat, lng))
            <==> box.southLat < box.northLat && box.westLng < box.eastLng
  {
    if box.southLat < box.northLat && box.westLng < box.eastLng {
      var lat := (box.southLat + box.northLat) / 2.0;
      var lng := (box.westLng + box.eastLng) / 2.0;
      assert WithinBox(box, lat, lng);
    }
  }

  // ---------------------------------------------------------------------
  // fill_mean_speed
  // ---------------------------------------------------------------------

  /** The fields of a stored row that the speed estimate reads; `time` is
      in epoch seconds. */
  datatype Position = Position(vehicleId: string, time: int, lat: real, lon: real)

  /** A row: its position and the `speedKmHr_<minutes>` entries, keyed by
      minutes. */
  datatype Location = Location(pos: Position, speeds: map<nat, Option<real>>)

  /** The look-back windows, in seconds, in the order they are filled. */
  const Deltas: seq<nat> := [3 * 60, 5 * 60, 10 * 60]

  /** Each vehicle remembers at most this many earlier rows. */
  const MemoLength: nat := 10

  /** The key of a window: its length in whole minutes. */
  function SpeedKey(delta: nat): (minutes: nat)
    ensures minutes * 60 <= delta < minutes * 60 + 60
  {
    delta / 60
  }

  /** Geodesic distance in kilometres between two (lat, lon) points. */
  type Distance = (real, real, real, real) -> real

  predicate Within(p: Location, time: int, delta: nat) {
    time - p.pos.time < delta
  }

  /** `[p for p in positions if time - p['time'] < delta]`. */
  function Window(positions: seq<Location>, time: int, delta: nat): (w: seq<Location>)
    ensures forall i :: 0 <= i < |w| ==> Within(w[i], time, delta)
    ensures |w| == 0 <==> forall j :: 0 <= j < |positions| ==> !Within(positions[j], time, delta)
    ensures |w| > 0 ==> exists k :: EarliestWithin(positions, time, delta, k) && w[0] == positions[k]
  {
    if |positions| == 0 then []
    else
      var rest := Window(positions[1..], time, delta);
      assert forall j :: 1 <= j < |positions| ==> positions[j] == positions[1..][j - 1];
      if Within(positions[0], time, delta) then
        assert EarliestWithin(positions, time, delta, 0);
        [positions[0]] + rest
      else
        assert |rest| > 0 ==> exists k :: EarliestWithin(positions, time, delta, k) && rest[0] == positions[k] by {
          if |rest| > 0 {
            var k :| EarliestWithin(positions[1..], time, delta, k) && rest[0] == positions[1..][k];
            assert EarliestWithin(positions, time, delta, k + 1);
          }
        }
        rest
  }

  /** `k` is the first remembered position inside the window. */
  predicate EarliestWithin(positions: seq<Location>, time: int, delta: nat, k: int) {
    && 0 <= k < |positions|
    && Within(positions[k], time, delta)
    && forall j :: 0 <= j < k ==> !Within(positions[j], time, delta)
  }

  /** The estimate for one window: unknown, a speed in km/h, or Python's
      ZeroDivisionError when the earliest position has the same time. */
  datatype SpeedOutcome = Speed(kmHr: Option<real>) | ZeroElapsed

  function SpeedFor(pos: Position, positions: seq<Location>, delta: nat, dist: Distance): (r: SpeedOutcome)
    ensures r == ZeroElapsed ==> exists j :: 0 <= j < |positions| && positions[j].pos.time == pos.time
    ensures r.Speed? && r.kmHr.Some? ==>
              exists j :: 0 <= j < |positions| && Within(positions[j], pos.time, delta) && positions[j].pos.time != pos.time
  {
    var w := Window(positions, pos.time, delta);
    if |w| == 0 then Speed(None)
    else
      var earliest := w[0].pos;
      if pos.time - earliest.time == 0 then ZeroElapsed
      else Speed(Some(dist(earliest.lat, earliest.lon, pos.lat, pos.lon) / ((pos.time - earliest.time) as real / 3600.0)))
  }

  /** A window's estimate is unknown exactly when no remembered position
      lies inside it. */
  lemma SpeedUnknownIff(pos: Position, positions: seq<Location>, delta: nat, dist: Distance)
    ensures SpeedFor(pos, positions, delta, dist) == Speed(None)
            <==> forall j :: 0 <= j < |positions| ==> !Within(positions[j], pos.time, delta)
  {
  }

  /** The division by zero happens exactly when the earliest position
      inside the window has the row's own time. */
  lemma SpeedZeroElapsedIff(pos: Position, positions: seq<Location>, delta: nat, dist: Distance)
    ensures SpeedFor(pos, positions, delta, dist) == ZeroElapsed
            <==> exists k :: EarliestWithin(positions, pos.time, delta, k) && positions[k].pos.time == pos.time
  {
    EarliestIsUnique(positions, pos.time, delta);
  }

  /** A known speed is the distance from the earliest position inside the
      window, over the hours elapsed since it. */
  lemma SpeedFromEarliest(pos: Position, positions: seq<Location>, delta: nat, dist: Distance, v: real)
    requires SpeedFor(pos, positions, delta, dist) == Speed(Some(v))
    ensures exists k :: && EarliestWithin(positions, pos.time, delta, k)
                        && positions[k].pos.time != pos.time
                        && v == dist(positions[k].pos.lat, positions[k].pos.lon, pos.lat, pos.lon)
                                / ((pos.time - positions[k].pos.time) as real / 3600.0)
  {
  }

  lemma EarliestIsUnique(positions: seq<Location>, time: int, delta: nat)
    ensures forall k, k' :: EarliestWithin(positions, time, delta, k) && EarliestWithin(positions, time, delta, k') ==> k == k'
  {
  }

  /** A row after the windows were filled, and whether a division by zero
      stopped the filling. */
  datatype RowOutcome = RowOutcome(row: Location, raised: bool)

  predicate DistinctKeys(deltas: seq<nat>) {
    forall i, j :: 0 <= i < j < |deltas| ==> SpeedKey(deltas[i]) != SpeedKey(deltas[j])
  }

  /** The inner loop over the windows: each window sets its own key; the
      first zero elapsed time stops the loop, keeping the keys already set. */
  function FillKeys(loc: Location, positions: seq<Location>, deltas: seq<nat>, dist: Distance): (r: RowOutcome)
    ensures r.row.pos == loc.pos
    decreases |deltas|
  {
    if |deltas| == 0 then RowOutcome(loc, false)
    else
      match SpeedFor(loc.pos, positions, deltas[0], dist)
      case ZeroElapsed => RowOutcome(loc, true)
      case Speed(v) => FillKeys(Location(loc.pos, loc.speeds[SpeedKey(deltas[0]) := v]), positions, deltas[1..], dist)
  }

  /** Some window's earliest position has the row's own time. */
  predicate SomeWindowDividesByZero(pos: Position, positions: seq<Location>, deltas: seq<nat>, dist: Distance) {
    exists i :: 0 <= i < |deltas| && SpeedFor(pos, positions, deltas[i], dist).ZeroElapsed?
  }

  /** The loop raises exactly when some window's earliest position has the
      row's own time. */
  lemma {:induction false} FillKeysRaises(loc: Location, positions: seq<Location>, deltas: seq<nat>, dist: Distance)
    ensures FillKeys(loc, positions, deltas, dist).raised <==> SomeWindowDividesByZero(loc.pos, positions, deltas, dist)
    decreases |deltas|
  {
    if |deltas| > 0 {
      var tail := deltas[1..];
      match SpeedFor(loc.pos, positions, deltas[0], dist)
      case ZeroElapsed =>
        assert SpeedFor(loc.pos, positions, deltas[0], dist).ZeroElapsed?;
      case Speed(v) =>
        FillKeysRaises(Location(loc.pos, loc.speeds[SpeedKey(deltas[0]) := v]), positions, tail, dist);
        if SomeWindowDividesByZero(loc.pos, positions, tail, dist) {
          var i :| 0 <= i < |tail| && SpeedFor(loc.pos, positions, tail[i], dist).ZeroElapsed?;
          assert deltas[i + 1] == tail[i];
        }
        if SomeWindowDividesByZero(loc.pos, positions, deltas, dist) {
          var i :| 0 <= i < |deltas| && SpeedFor(loc.pos, positions, deltas[i], dist).ZeroElapsed?;
          assert i > 0 && tail[i - 1] == deltas[i];
        }
    }
  }

  /** When no window divides by zero, every window's key holds that
      window's estimate. */
  lemma {:induction false} FillKeysSetsKeys(loc: Location, positions: seq<Location>, deltas: seq<nat>, dist: Distance)
    requires DistinctKeys(deltas)
    requires !FillKeys(loc, positions, deltas, dist).raised
    ensures forall i :: 0 <= i < |deltas| ==>
              && SpeedKey(deltas[i]) in FillKeys(loc, positions, deltas, dist).row.speeds
              && SpeedFor(loc.pos, positions, deltas[i], dist)
                 == Speed(FillKeys(loc, positions, deltas, dist).row.speeds[SpeedKey(deltas[i])])
    decreases |deltas|
  {
    if |deltas| > 0 {
      var v := SpeedFor(loc.pos, positions, deltas[0], dist).kmHr;
      var loc' := Location(loc.pos, loc.speeds[SpeedKey(deltas[0]) := v]);
      var rest := FillKeys(loc', positions, deltas[1..], dist);
      assert FillKeys(loc, positions, deltas, dist) == rest;
      FillKeysSetsKeys(loc', positions, deltas[1..], dist);
      FillKeysKeepsOthers(loc', positions, deltas[1..], dist);
      forall i | 0 <= i < |deltas|
        ensures SpeedKey(deltas[i]) in rest.row.speeds
        ensures SpeedFor(loc.pos, positions, deltas[i], dist) == Speed(rest.row.speeds[SpeedKey(deltas[i])])
      {
        if i > 0 {
          assert deltas[i] == deltas[1..][i - 1];
        }
      }
    }
  }

  /** The loop leaves every key other than the windows' as it was. */
  lemma {:induction false} FillKeysKeepsOthers(loc: Location, positions: seq<Location>, deltas: seq<nat>, dist: Distance)
    ensures forall m :: (forall i :: 0 <= i < |deltas| ==> SpeedKey(deltas[i]) != m) ==>
              && (m in FillKeys(loc, positions, deltas, dist).row.speeds <==> m in loc.speeds)
              && (m in loc.speeds ==> FillKeys(loc, positions, deltas, dist).row.speeds[m] == loc.speeds[m])
    decreases |deltas|
  {
    if |deltas| > 0 {
      assert forall i :: 1 <= i < |deltas| ==> deltas[i] == deltas[1..][i - 1];
      match SpeedFor(loc.pos, positions, deltas[0], dist)
      case ZeroElapsed =>
      case Speed(v) =>
        FillKeysKeepsOthers(Location(loc.pos, loc.speeds[SpeedKey(deltas[0]) := v]), positions, deltas[1..], dist);
    }
  }

  /** The deque of a vehicle's last positions after appending one: at most
      `MemoLength`, the oldest dropped first. */
  function Remember(recent: seq<Location>, loc: Location): (recent': seq<Location>)
    ensures |recent'| == if |recent| < MemoLength then |recent| + 1 else |recent|
  {
    var appended := recent + [loc];
    if |appended| > MemoLength then appended[1..] else appended
  }

  /** The rows of `vehicleId` among `rows`, in order. */
  function OfVehicle(rows: seq<Location>, vehicleId: string): (own: seq<Location>)
    ensures |own| <= |rows|
  {
    if |rows| == 0 then []
    else
      var last := rows[|rows| - 1];
      OfVehicle(rows[..|rows| - 1], vehicleId) + (if last.pos.vehicleId == vehicleId then [last] else [])
  }

  /** The last `MemoLength` elements. */
  function Recent(rows: seq<Location>): (recent: seq<Location>)
    ensures |recent| <= MemoLength
  {
    if |rows| <= MemoLength then rows else rows[|rows| - MemoLength..]
  }

  /** Appending to the bounded deque keeps the last `MemoLength` rows. */
  lemma RecentSnoc(rows: seq<Location>, loc: Location)
    ensures Recent(rows + [loc]) == Remember(Recent(rows), loc)
  {
    if |rows| >= MemoLength {
      assert (rows + [loc])[|rows| + 1 - MemoLength..] == rows[|rows| + 1 - MemoLength..] + [loc];
      assert (rows[|rows| - MemoLength..] + [loc])[1..] == rows[|rows| + 1 - MemoLength..] + [loc];
    }
  }

  /** What `memo[vehicleId]` holds when row `i` is reached: the last
      `MemoLength` earlier rows of that vehicle, the first row excluded. */
  function History(rows: seq<Location>, i: nat, vehicleId: string): (h: seq<Location>)
    requires 1 <= i <= |rows|
    ensures |h| <= MemoLength
  {
    Recent(OfVehicle(rows[1..i], vehicleId))
  }

  lemma {:induction false} OfVehicleIsOwnRows(rows: seq<Location>, vehicleId: string)
    ensures forall j :: 0 <= j < |OfVehicle(rows, vehicleId)| ==>
              OfVehicle(rows, vehicleId)[j].pos.vehicleId == vehicleId && OfVehicle(rows, vehicleId)[j] in rows
  {
    if |rows| > 0 {
      var init := rows[..|rows| - 1];
      var prev := OfVehicle(init, vehicleId);
      var own := OfVehicle(rows, vehicleId);
      OfVehicleIsOwnRows(init, vehicleId);
      var last := rows[|rows| - 1];
      assert own == prev + (if last.pos.vehicleId == vehicleId then [last] else []);
      forall j | 0 <= j < |own|
        ensures own[j].pos.vehicleId == vehicleId && own[j] in rows
      {
        if j < |prev| {
          assert own[j] == prev[j];
          assert prev[j] in init;
          var k :| 0 <= k < |init| && init[k] == prev[j];
          assert rows[k] == prev[j];
        } else {
          assert own[j] == rows[|rows| - 1];
        }
      }
    }
  }

  /** Only the vehicle's own rows, from after the first and before `i`,
      are consulted. */
  lemma HistoryIsOwnEarlierRows(rows: seq<Location>, i: nat, vehicleId: string)
    requires 1 <= i <= |rows|
    ensures var h := History(rows, i, vehicleId);
            forall j :: 0 <= j < |h| ==> h[j].pos.vehicleId == vehicleId && h[j] in rows[1..i]
  {
    var own := OfVehicle(rows[1..i], vehicleId);
    OfVehicleIsOwnRows(rows[1..i], vehicleId);
    var h := History(rows, i, vehicleId);
    var offset := |own| - |h|;
    forall j | 0 <= j < |h|
      ensures h[j] == own[j + offset]
    {
    }
  }

  /** The first row never enters any history. */
  lemma FirstRowIsNeverRemembered(rows: seq<Location>, i: nat, vehicleId: string, first: Location)
    requires 1 <= i <= |rows|
    ensures History(rows, i, vehicleId) == History(rows[0 := first], i, vehicleId)
  {
    assert rows[1..i] == rows[0 := first][1..i];
  }

  /** Row `i` was filled from its vehicle's history without a division by
      zero. */
  ghost predicate Filled(rows: seq<Location>, locations: seq<Location>, i: nat, dist: Distance)
    requires 1 <= i < |rows| == |locations|
  {
    FillKeys(locations[i], History(rows, i, locations[i].pos.vehicleId), Deltas, dist) == RowOutcome(rows[i], false)
  }

  function Lookup(memo: map<string, seq<Location>>, vehicleId: string): seq<Location> {
    if vehicleId in memo then memo[vehicleId] else []
  }

  /** `fill_mean_speed(locations)`: every row after the first gets the
      three speed keys from its vehicle's remembered positions and is then
      remembered itself. A zero elapsed time raises, leaving the rows
      filled so far (and the keys of the failing row set before it) in
      place and the later rows untouched. */
  method FillMeanSpeed(locations: seq<Location>, dist: Distance) returns (rows: seq<Location>, raised: bool)
    ensures |rows| == |locations|
    ensures forall i :: 0 <= i < |rows| ==> rows[i].pos == locations[i].pos
    ensures |locations| > 0 ==> rows[0] == locations[0]
    ensures !raised ==> forall i :: 1 <= i < |rows| ==> Filled(rows, locations, i, dist)
    ensures raised ==> exists k :: RaisedAt(rows, locations, k, dist)
  {
    rows, raised := locations, false;
    if |locations| == 0 {
      return;
    }
    var memo: map<string, seq<Location>> := map[];
    var i := 1;
    assert rows[1..1] == [];
    while i < |locations|
      invariant 1 <= i <= |locations|
      invariant Progress(rows, locations, memo, i, dist)
    {
      var vehicleId := locations[i].pos.vehicleId;
      var lastPositions := Lookup(memo, vehicleId);
      var out := FillKeys(locations[i], lastPositions, Deltas, dist);
      if out.raised {
        StepRaises(rows, locations, memo, i, dist);
        rows, raised := rows[i := out.row], true;
        return;
      }
      StepKeepsProgress(rows, locations, memo, i, dist);
      rows := rows[i := out.row];
      memo := memo[vehicleId := Remember(lastPositions, out.row)];
      i := i + 1;
    }
    assert rows[i..] == [];
  }

  /** The loop invariant of `FillMeanSpeed` before row `i`: rows before
      `i` are filled, later ones untouched, and the memo holds each
      vehicle's history. */
  ghost predicate Progress(rows: seq<Location>, locations: seq<Location>, memo: map<string, seq<Location>>, i: nat, dist: Distance) {
    && 1 <= i <= |locations| == |rows|
    && (forall j :: 0 <= j < |rows| ==> rows[j].pos == locations[j].pos)
    && rows[0] == locations[0]
    && rows[i..] == locations[i..]
    && (forall j :: 1 <= j < i ==> Filled(rows, locations, j, dist))
    && (forall v :: Lookup(memo, v) == History(rows, i, v))
  }

  /** Row `k` raised: the rows before it were filled, its own keys set
      before the failing window stay, and the later rows are untouched. */
  ghost predicate RaisedAt(rows: seq<Location>, locations: seq<Location>, k: int, dist: Distance) {
    && 1 <= k < |rows| == |locations|
    && (forall i :: 0 <= i < |rows| ==> rows[i].pos == locations[i].pos)
    && (forall i :: 1 <= i < k ==> Filled(rows, locations, i, dist))
    && FillKeys(locations[k], History(rows, k, locations[k].pos.vehicleId), Deltas, dist) == RowOutcome(rows[k], true)
    && rows[k + 1..] == locations[k + 1..]
  }

  lemma StepRaises(rows: seq<Location>, locations: seq<Location>, memo: map<string, seq<Location>>, i: nat, dist: Distance)
    requires Progress(rows, locations, memo, i, dist) && i < |locations|
    requires FillKeys(locations[i], Lookup(memo, locations[i].pos.vehicleId), Deltas, dist).raised
    ensures var out := FillKeys(locations[i], Lookup(memo, locations[i].pos.vehicleId), Deltas, dist);
            RaisedAt(rows[i := out.row], locations, i, dist)
  {
    var out := FillKeys(locations[i], Lookup(memo, locations[i].pos.vehicleId), Deltas, dist);
    var after := rows[i := out.row];
    RowUpdateKeepsHistories(rows, after, i);
    RowUpdateKeepsFilled(rows, after, locations, i, dist);
    assert after[i + 1..] == rows[i + 1..];
  }

  lemma StepKeepsProgress(rows: seq<Location>, locations: seq<Location>, memo: map<string, seq<Location>>, i: nat, dist: Distance)
    requires Progress(rows, locations, memo, i, dist) && i < |locations|
    requires !FillKeys(locations[i], Lookup(memo, locations[i].pos.vehicleId), Deltas, dist).raised
    ensures var vehicleId := locations[i].pos.vehicleId;
            var lastPositions := Lookup(memo, vehicleId);
            var out := FillKeys(locations[i], lastPositions, Deltas, dist);
            Progress(rows[i := out.row], locations, memo[vehicleId := Remember(lastPositions, out.row)], i + 1, dist)
  {
    var vehicleId := locations[i].pos.vehicleId;
    var lastPositions := Lookup(memo, vehicleId);
    var out := FillKeys(locations[i], lastPositions, Deltas, dist);
    var after := rows[i := out.row];
    RowUpdateKeepsHistories(rows, after, i);
    RowUpdateKeepsFilled(rows, after, locations, i, dist);
    assert after[i + 1..] == locations[i + 1..] by {
      assert after[i + 1..] == rows[i + 1..];
      assert rows[i + 1..] == rows[i..][1..];
    }
    assert Filled(after, locations, i, dist);
    MemoStep(rows, after, memo, memo[vehicleId := Remember(lastPositions, out.row)], i);
  }

  /** Remembering the new row `i` keeps the memo equal to the histories. */
  lemma MemoStep(rows: seq<Location>, after: seq<Location>, memo: map<string, seq<Location>>, memo': map<string, seq<Location>>, i: nat)
    requires 1 <= i < |rows| == |after|
    requires forall v :: Lookup(memo, v) == History(rows, i, v)
    requires forall j, v :: 1 <= j <= i ==> History(after, j, v) == History(rows, j, v)
    requires memo' == memo[after[i].pos.vehicleId := Remember(Lookup(memo, after[i].pos.vehicleId), after[i])]
    ensures forall v :: Lookup(memo', v) == History(after, i + 1, v)
  {
    forall v
      ensures Lookup(memo', v) == History(after, i + 1, v)
    {
      HistoryStep(after, i, v);
      assert History(after, i, v) == History(rows, i, v);
    }
  }

  /** Updating row `i` leaves the histories up to `i` as they were. */
  lemma RowUpdateKeepsHistories(before: seq<Location>, after: seq<Location>, i: nat)
    requires 1 <= i < |before| == |after|
    requires forall j :: 0 <= j < |before| && j != i ==> after[j] == before[j]
    ensures forall j, v :: 1 <= j <= i ==> History(after, j, v) == History(before, j, v)
  {
    forall j, v | 1 <= j <= i
      ensures History(after, j, v) == History(before, j, v)
    {
      assert after[1..j] == before[1..j];
    }
  }

  /** ... and the rows filled before it stay filled. */
  lemma RowUpdateKeepsFilled(before: seq<Location>, after: seq<Location>, locations: seq<Location>, i: nat, dist: Distance)
    requires 1 <= i < |before| == |after| == |locations|
    requires forall j :: 0 <= j < |before| && j != i ==> after[j] == before[j]
    requires forall j, v :: 1 <= j <= i ==> History(after, j, v) == History(before, j, v)
    requires forall j :: 1 <= j < i ==> Filled(before, locations, j, dist)
    ensures forall j :: 1 <= j < i ==> Filled(after, locations, j, dist)
  {
    forall j | 1 <= j < i
      ensures Filled(after, locations, j, dist)
    {
      var v := locations[j].pos.vehicleId;
      assert History(after, j, v) == History(before, j, v);
      assert Filled(before, locations, j, dist);
    }
  }

  /** Remembering row `i` extends its vehicle's history and no other. */
  lemma HistoryStep(rows: seq<Location>, i: nat, v: string)
    requires 1 <= i < |rows|
    ensures History(rows, i + 1, v)
            == if rows[i].pos.vehicleId == v then Remember(History(rows, i, v), rows[i]) else History(rows, i, v)
  {
    assert rows[1..i + 1] == rows[1..i] + [rows[i]];
    assert rows[1..i + 1][..i - 1] == rows[1..i];
    RecentSnoc(OfVehicle(rows[1..i], v), rows[i]);
  }

  /** For any windows with distinct keys, a loop that did not raise leaves
      every window's key, None exactly when no position lies inside it. */
  lemma FilledKeysAreKnownIff(loc: Location, positions: seq<Location>, deltas: seq<nat>, dist: Distance)
    requires DistinctKeys(deltas) && !FillKeys(loc, positions, deltas, dist).raised
    ensures forall k :: 0 <= k < |deltas| ==>
              && SpeedKey(deltas[k]) in FillKeys(loc, positions, deltas, dist).row.speeds
              && (FillKeys(loc, positions, deltas, dist).row.speeds[SpeedKey(deltas[k])] == None <==>
                    forall j :: 0 <= j < |positions| ==> !Within(positions[j], loc.pos.time, deltas[k]))
  {
    FillKeysSetsKeys(loc, positions, deltas, dist);
    forall k | 0 <= k < |deltas|
      ensures SpeedFor(loc.pos, positions, deltas[k], dist) == Speed(None) <==>
                forall j :: 0 <= j < |positions| ==> !Within(positions[j], loc.pos.time, deltas[k])
    {
      SpeedUnknownIff(loc.pos, positions, deltas[k], dist);
    }
  }

  /** A row filled without error carries all three keys, and a key is
      None exactly when no remembered position lies inside its window. */
  lemma FilledRowKeys(rows: seq<Location>, locations: seq<Location>, i: nat, dist: Distance)
    requires 1 <= i < |rows| == |locations| && Filled(rows, locations, i, dist)
    ensures forall k :: 0 <= k < |Deltas| ==>
              && SpeedKey(Deltas[k]) in rows[i].speeds
              && (rows[i].speeds[SpeedKey(Deltas[k])] == None <==>
                    forall j :: 0 <= j < |History(rows, i, locations[i].pos.vehicleId)| ==>
                      !Within(History(rows, i, locations[i].pos.vehicleId)[j], locations[i].pos.time, Deltas[k]))
  {
    var h := History(rows, i, locations[i].pos.vehicleId);
    assert SpeedKey(Deltas[0]) == 3 && SpeedKey(Deltas[1]) == 5 && SpeedKey(Deltas[2]) == 10;
    assert DistinctKeys(Deltas);
    FilledKeysAreKnownIff(locations[i], h, Deltas, dist);
  }
}
