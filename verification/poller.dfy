/**
  The route pollers of src/index.ts. Each poller owns a watermark (the
  `$lastTime` of its closure), fetches the route's vehicle locations since
  that watermark, replaces the watermark with the feed's `lastTime` when the
  fetch succeeds, and sleeps a jittered interval. Sleeping, the clock and
  `Math.random()` are not modelled: the clock reading and each random draw
  are inputs, and the sleeps and fetches a poller performs are its output.
  The poller never writes to the database.
 */
module Poller {
  import opened Wrappers
  import Decimal
  import Muni

  const RouteTagWhitelist: seq<string> := ["J", "N", "M", "K"]
  const BaseWaitSecs: real := 60.0
  const SpreadSecs: real := 10.0

  /** The base of the first, staggering, sleep: not `BaseWaitSecs`. */
  const FirstBaseWaitSecs: real := 7.0

  /** `moment().subtract(5, 'minutes')`, in milliseconds. */
  const LookbackMs: int := 5 * 60 * 1000

  /** `getWaitTime`, with `Math.random()` drawn as `draw`. */
  function GetWaitTime(baseWait: real, spread: real, draw: real): (w: real)
    requires 0.0 <= draw < 1.0
    ensures spread > 0.0 ==> baseWait - spread / 2.0 <= w < baseWait + spread / 2.0
    ensures spread == 0.0 ==> w == baseWait
    ensures spread < 0.0 ==> baseWait + spread / 2.0 < w <= baseWait - spread / 2.0
  {
    JitterBounds(draw, spread);
    (baseWait - spread / 2.0) + Jitter(draw, spread)
  }

  /** `Math.random() * spread`. */
  function Jitter(draw: real, spread: real): real
    requires 0.0 <= draw < 1.0
  {
    draw * spread
  }

  /** The jitter lies between 0 and `spread`, never `spread` itself. */
  lemma JitterBounds(draw: real, spread: real)
    requires 0.0 <= draw < 1.0
    ensures spread > 0.0 ==> 0.0 <= Jitter(draw, spread) < spread
    ensures spread == 0.0 ==> Jitter(draw, spread) == 0.0
    ensures spread < 0.0 ==> spread < Jitter(draw, spread) <= 0.0
  {
    if spread > 0.0 {
      JitterBelowSpread(draw, spread);
    } else if spread < 0.0 {
      JitterBelowSpread(draw, -spread);
      assert draw * -spread == -(draw * spread);
    }
  }

  /** A draw from [0, 1) scaled by a positive `spread` lies in [0, spread). */
  lemma JitterBelowSpread(draw: real, spread: real)
    requires 0.0 <= draw < 1.0
    requires spread > 0.0
    ensures 0.0 <= draw * spread < spread
    ensures -spread < draw * -spread <= 0.0
  {
    assert (1.0 - draw) * spread > 0.0;
  }

  /** Every point of the jitter interval is reached by exactly the draw that
      sits at the same relative position, so the sleep is uniform over the
      interval when the draw is. */
  lemma WaitTimeCoversInterval(baseWait: real, spread: real, w: real)
    requires spread > 0.0
    requires baseWait - spread / 2.0 <= w < baseWait + spread / 2.0
    ensures var draw := (w - (baseWait - spread / 2.0)) / spread;
            && 0.0 <= draw < 1.0
            && GetWaitTime(baseWait, spread, draw) == w
  {
    var low := baseWait - spread / 2.0;
    var draw := (w - low) / spread;
    QuotientBelowOne(w - low, spread);
    assert draw * spread == w - low;
    assert Jitter(draw, spread) == w - low;
  }

  /** A larger draw means a longer sleep. */
  lemma WaitTimeIncreasesWithDraw(baseWait: real, spread: real, d1: real, d2: real)
    requires spread > 0.0
    requires 0.0 <= d1 < d2 < 1.0
    ensures GetWaitTime(baseWait, spread, d1) < GetWaitTime(baseWait, spread, d2)
  {
    JitterIncreases(d1, d2, spread);
  }

  lemma QuotientBelowOne(x: real, y: real)
    requires 0.0 <= x < y
    ensures 0.0 <= x / y < 1.0
  {
    assert (x / y) * y == x;
  }

  lemma JitterIncreases(d1: real, d2: real, spread: real)
    requires 0.0 <= d1 < d2 < 1.0 && spread > 0.0
    ensures Jitter(d1, spread) < Jitter(d2, spread)
  {
    assert (d2 - d1) * spread > 0.0;
  }

  /** What a poller does that the outside world sees. */
  datatype Action = Sleep(seconds: real) | Fetch(routeTag: string, since: Option<int>)

  /** A poller between cycles: its route and its watermark; `None` is NaN,
      which the watermark becomes when the feed's `lastTime` is not a number. */
  datatype Poller = Poller(routeTag: string, watermark: Option<int>)

  /** The poller after some cycles, and what it did during them. */
  datatype Step = Step(next: Poller, actions: seq<Action>)

  /** The poller's first moments: the watermark is set five minutes before
      the clock reading `nowMs`, then the poller sleeps around 7 seconds. */
  function Start(routeTag: string, nowMs: int, spread: real, draw: real): (s: Step)
    requires 0.0 <= draw < 1.0
    ensures s.next.routeTag == routeTag
    ensures s.next.watermark == Some(nowMs - 300000)
    ensures |s.actions| == 1 && s.actions[0].Sleep?
    ensures spread > 0.0 ==> 7.0 - spread / 2.0 <= s.actions[0].seconds < 7.0 + spread / 2.0
  {
    Step(Poller(routeTag, Some(nowMs - LookbackMs)), [Sleep(GetWaitTime(FirstBaseWaitSecs, spread, draw))])
  }

  /** The watermark after one fetch: the feed's `lastTime` on success, with
      no comparison against the old value; unchanged on failure. */
  function Advance(watermark: Option<int>, outcome: Result<Muni.VehicleLocations, Muni.FetchError>): (w: Option<int>)
    ensures w == watermark <==> outcome.Failure? || outcome.value.lastTime == watermark
    ensures w != watermark ==> outcome.Success? && w == outcome.value.lastTime
  {
    match outcome
    case Success(v) => v.lastTime
    case Failure(_) => watermark
  }

  /** One pass of the `while (true)` loop once the fetch has returned
      `outcome`: fetch since the watermark, update it, then sleep. */
  function CycleOn(p: Poller, outcome: Result<Muni.VehicleLocations, Muni.FetchError>, baseWait: real, spread: real, draw: real): (s: Step)
    requires 0.0 <= draw < 1.0
    ensures s.next == Poller(p.routeTag, Advance(p.watermark, outcome))
    ensures |s.actions| == 2 && s.actions[0] == Fetch(p.routeTag, p.watermark) && s.actions[1].Sleep?
    ensures spread > 0.0 ==> baseWait - spread / 2.0 <= s.actions[1].seconds < baseWait + spread / 2.0
  {
    Step(Poller(p.routeTag, Advance(p.watermark, outcome)),
         [Fetch(p.routeTag, p.watermark), Sleep(GetWaitTime(baseWait, spread, draw))])
  }

  /** One pass of the loop with the response `(status, body)`. */
  function Cycle(p: Poller, status: int, body: Muni.VehicleLocationsBody, baseWait: real, spread: real, draw: real): (s: Step)
    requires 0.0 <= draw < 1.0
    ensures s.next.routeTag == p.routeTag
    ensures |s.actions| == 2 && s.actions[0] == Fetch(p.routeTag, p.watermark) && s.actions[1].Sleep?
    ensures Muni.GetVehicleLocations(status, body).Failure? ==> s.next == p
    ensures Muni.GetVehicleLocations(status, body).Success? ==>
              s.next.watermark == Muni.GetVehicleLocations(status, body).value.lastTime
    ensures spread > 0.0 ==> baseWait - spread / 2.0 <= s.actions[1].seconds < baseWait + spread / 2.0
  {
    CycleOn(p, Muni.GetVehicleLocations(status, body), baseWait, spread, draw)
  }

  /** A feed error keeps the watermark, whether or not entries came along,
      and the poller still sleeps before the next fetch. */
  lemma FeedErrorKeepsWatermark(p: Poller, body: Muni.VehicleLocationsBody, baseWait: real, spread: real, draw: real)
    requires body.error.Some?
    requires 0.0 <= draw < 1.0
    ensures Cycle(p, Muni.StatusOk, body, baseWait, spread, draw).next == p
    ensures Cycle(p, Muni.StatusOk, body, baseWait, spread, draw).actions[1].Sleep?
  {
  }

  /** A fetch that reports an older `lastTime` moves the watermark back. */
  lemma WatermarkCanMoveBack(routeTag: string, body: Muni.VehicleLocationsBody, older: nat, newer: int)
    requires older < newer
    requires body.error.None? && body.lastTime == Some(Decimal.ToDecimal(older))
    ensures Cycle(Poller(routeTag, Some(newer)), Muni.StatusOk, body, 60.0, 10.0, 0.0).next.watermark == Some(older)
  {
    Muni.LastTimeRoundTrip(body, older);
  }

  /** The corrected parser changes nothing the poller keeps: the watermark
      after a cycle is the same under either parser. */
  lemma CorrectedParserKeepsWatermark(watermark: Option<int>, status: int, body: Muni.VehicleLocationsBody)
    ensures Advance(watermark, Muni.GetVehicleLocationsCorrected(status, body))
            == Advance(watermark, Muni.GetVehicleLocations(status, body))
  {
  }

  /** A response together with the random draw of the sleep that follows. */
  datatype Response = Response(status: int, body: Muni.VehicleLocationsBody, draw: real)

  predicate ValidDraws(responses: seq<Response>) {
    forall i :: 0 <= i < |responses| ==> 0.0 <= responses[i].draw < 1.0
  }

  /** What each fetch returned. */
  function Outcomes(responses: seq<Response>): (os: seq<Result<Muni.VehicleLocations, Muni.FetchError>>)
    ensures |os| == |responses|
    ensures forall i :: 0 <= i < |responses| ==>
              os[i] == Muni.GetVehicleLocations(responses[i].status, responses[i].body)
  {
    seq(|responses|, i requires 0 <= i < |responses| =>
      Muni.GetVehicleLocations(responses[i].status, responses[i].body))
  }

  /** Reference history: the watermark before each fetch, and after the last. */
  function Watermarks(w0: Option<int>, outcomes: seq<Result<Muni.VehicleLocations, Muni.FetchError>>): (ws: seq<Option<int>>)
    ensures |ws| == |outcomes| + 1 && ws[0] == w0
    decreases |outcomes|
  {
    if |outcomes| == 0 then [w0] else [w0] + Watermarks(Advance(w0, outcomes[0]), outcomes[1..])
  }

  /** Each entry of the history follows from the one before it. */
  lemma {:induction false} WatermarksStep(w0: Option<int>, outcomes: seq<Result<Muni.VehicleLocations, Muni.FetchError>>, i: nat)
    requires i < |outcomes|
    ensures Watermarks(w0, outcomes)[i + 1] == Advance(Watermarks(w0, outcomes)[i], outcomes[i])
    decreases i
  {
    if i > 0 {
      WatermarksStep(Advance(w0, outcomes[0]), outcomes[1..], i - 1);
    }
  }

  /** The loop run over `responses`; the poller ends on the last entry of
      the watermark history. */
  function RunCycles(p: Poller, responses: seq<Response>, baseWait: real, spread: real): (s: Step)
    requires ValidDraws(responses)
    ensures s.next.routeTag == p.routeTag
    ensures s.next.watermark == Watermarks(p.watermark, Outcomes(responses))[|responses|]
    ensures |s.actions| == 2 * |responses|
    decreases |responses|
  {
    if |responses| == 0 then Step(p, [])
    else
      var outcomes := Outcomes(responses);
      var first := CycleOn(p, outcomes[0], baseWait, spread, responses[0].draw);
      assert outcomes[1..] == Outcomes(responses[1..]);
      var rest := RunCycles(first.next, responses[1..], baseWait, spread);
      Step(rest.next, first.actions + rest.actions)
  }

  /** Fetch `i` asks for data since the i-th watermark of the history, and
      a sleep follows each fetch. */
  lemma {:induction false} RunCyclesFetches(p: Poller, responses: seq<Response>, baseWait: real, spread: real, i: nat)
    requires ValidDraws(responses) && i < |responses|
    ensures RunCycles(p, responses, baseWait, spread).actions[2 * i]
            == Fetch(p.routeTag, Watermarks(p.watermark, Outcomes(responses))[i])
    ensures RunCycles(p, responses, baseWait, spread).actions[2 * i + 1].Sleep?
    decreases i
  {
    var next := Poller(p.routeTag, Advance(p.watermark, Outcomes(responses)[0]));
    RunCyclesUnfold(p, responses, baseWait, spread);
    if i > 0 {
      RunCyclesFetches(next, responses[1..], baseWait, spread, i - 1);
    }
  }

  /** The first cycle's fetch and sleep, followed by the remaining cycles
      run from the poller it leaves. */
  lemma RunCyclesUnfold(p: Poller, responses: seq<Response>, baseWait: real, spread: real)
    requires ValidDraws(responses) && |responses| > 0
    ensures var next := Poller(p.routeTag, Advance(p.watermark, Outcomes(responses)[0]));
            && ValidDraws(responses[1..])
            && RunCycles(p, responses, baseWait, spread).actions[0] == Fetch(p.routeTag, p.watermark)
            && RunCycles(p, responses, baseWait, spread).actions[1].Sleep?
            && RunCycles(p, responses, baseWait, spread).actions[2..] == RunCycles(next, responses[1..], baseWait, spread).actions
            && Outcomes(responses[1..]) == Outcomes(responses)[1..]
            && Watermarks(next.watermark, Outcomes(responses[1..])) == Watermarks(p.watermark, Outcomes(responses))[1..]
  {
    var outcomes := Outcomes(responses);
    assert outcomes[1..] == Outcomes(responses[1..]);
  }

  /** `runRoutePoller` for a finite prefix of its endless loop. */
  function RunPoller(routeTag: string, nowMs: int, baseWait: real, spread: real, firstDraw: real, responses: seq<Response>): (s: Step)
    requires 0.0 <= firstDraw < 1.0
    requires ValidDraws(responses)
    ensures |s.actions| == 1 + 2 * |responses|
    ensures s.actions[0].Sleep?
    ensures |responses| > 0 ==> s.actions[1] == Fetch(routeTag, Some(nowMs - 300000))
    ensures s.next.watermark == Watermarks(Some(nowMs - 300000), Outcomes(responses))[|responses|]
  {
    var start := Start(routeTag, nowMs, spread, firstDraw);
    var cycles := RunCycles(start.next, responses, baseWait, spread);
    Step(cycles.next, start.actions + cycles.actions)
  }

  /** `a <= b` on JavaScript numbers: false as soon as either is NaN. */
  predicate AtMost(a: Option<int>, b: Option<int>) {
    a.Some? && b.Some? && a.value <= b.value
  }

  predicate NonDecreasing(ws: seq<Option<int>>) {
    forall i, j :: 0 <= i <= j < |ws| ==> AtMost(ws[i], ws[j])
  }

  /** The feed's reported times never go below the starting watermark nor
      backwards from one successful fetch to a later one. */
  predicate FeedMonotone(w0: Option<int>, outcomes: seq<Result<Muni.VehicleLocations, Muni.FetchError>>) {
    && w0.Some?
    && (forall i :: 0 <= i < |outcomes| && outcomes[i].Success? ==> AtMost(w0, outcomes[i].value.lastTime))
    && (forall i, j :: 0 <= i < j < |outcomes| && outcomes[i].Success? && outcomes[j].Success? ==>
          AtMost(outcomes[i].value.lastTime, outcomes[j].value.lastTime))
  }

  /** The watermark never moves backwards provided the feed's times do not. */
  lemma {:induction false} MonotoneFeedGivesMonotoneWatermark(w0: Option<int>, outcomes: seq<Result<Muni.VehicleLocations, Muni.FetchError>>)
    requires FeedMonotone(w0, outcomes)
    ensures NonDecreasing(Watermarks(w0, outcomes))
    decreases |outcomes|
  {
    if |outcomes| > 0 {
      var w1 := Advance(w0, outcomes[0]);
      var tail := outcomes[1..];
      assert FeedMonotone(w1, tail) by {
        forall i | 0 <= i < |tail| && tail[i].Success?
          ensures AtMost(w1, tail[i].value.lastTime)
        {
          assert tail[i] == outcomes[i + 1];
        }
        forall i, j | 0 <= i < j < |tail| && tail[i].Success? && tail[j].Success?
          ensures AtMost(tail[i].value.lastTime, tail[j].value.lastTime)
        {
          assert tail[i] == outcomes[i + 1] && tail[j] == outcomes[j + 1];
        }
      }
      MonotoneFeedGivesMonotoneWatermark(w1, tail);
      var ws := Watermarks(w0, outcomes);
      assert AtMost(w0, w1);
      forall i, j | 0 <= i <= j < |ws|
        ensures AtMost(ws[i], ws[j])
      {
        if i == 0 {
          if j > 0 {
            assert ws[j] == Watermarks(w1, tail)[j - 1];
            assert AtMost(w1, ws[j]);
          }
        } else {
          assert ws[i] == Watermarks(w1, tail)[i - 1];
          assert ws[j] == Watermarks(w1, tail)[j - 1];
        }
      }
    }
  }

  /** The converse: any successful fetch whose `lastTime` is below the
      current watermark makes the history decrease at that point. */
  lemma RegressingFeedRegressesWatermark(w0: Option<int>, outcomes: seq<Result<Muni.VehicleLocations, Muni.FetchError>>, i: nat)
    requires i < |outcomes| && outcomes[i].Success?
    requires AtMost(outcomes[i].value.lastTime, Watermarks(w0, outcomes)[i])
    requires outcomes[i].value.lastTime != Watermarks(w0, outcomes)[i]
    ensures !NonDecreasing(Watermarks(w0, outcomes))
  {
    WatermarksStep(w0, outcomes, i);
  }

  /** A typical feed entry: a numeric `lon`, speed 12, heading 90, and
      `predictable` reported as "true". */
  const SampleEntry := Muni.RawVehicleLocation("1234", "-122.4", "N", "true", "12", "90", "37.7", "5")

  lemma SampleEntryParsed()
    ensures Muni.ParseRawVehicleLocation(SampleEntry).heading == Some(90)
    ensures Muni.ParseRawVehicleLocation(SampleEntry).speedKmHr == Some(12)
    ensures !Muni.ParseRawVehicleLocation(SampleEntry).predictable
  {
    assert Decimal.ToDecimal(90) == "90" && Decimal.ToDecimal(12) == "12" && Decimal.ToDecimal(5) == "5";
    Muni.IntegerFieldsRoundTrip(SampleEntry, 12, 90, 5);
    Muni.PredictableVehicleParsedUnpredictable();
  }

  /** A feed answering one vehicle: the watermark becomes
      the reported time, and the entry's integers are read back, while its
      `predictable` flag is lost. */
  lemma OneVehicleResponse(p: Poller)
    ensures var body := Muni.VehicleLocationsBody(Some([SampleEntry]), Some("1700000000000"), None);
            var outcome := Muni.GetVehicleLocations(Muni.StatusOk, body);
            && Cycle(p, Muni.StatusOk, body, BaseWaitSecs, SpreadSecs, 0.5).next.watermark == Some(1700000000000)
            && outcome.Success? && |outcome.value.locations| == 1
            && outcome.value.locations[0].heading == Some(90)
            && outcome.value.locations[0].speedKmHr == Some(12)
            && !outcome.value.locations[0].predictable
  {
    FirstTimestamp();
    SampleEntryParsed();
  }

  /** With the corrected parser the same response stores the vehicle as
      predictable, and the watermark still becomes the reported time. */
  lemma OneVehicleResponseCorrected(p: Poller)
    ensures var body := Muni.VehicleLocationsBody(Some([SampleEntry]), Some("1700000000000"), None);
            var outcome := Muni.GetVehicleLocationsCorrected(Muni.StatusOk, body);
            && outcome.Success? && |outcome.value.locations| == 1
            && outcome.value.locations[0].predictable
            && outcome.value.locations[0].heading == Some(90)
            && outcome.value.locations[0].speedKmHr == Some(12)
            && Advance(p.watermark, outcome) == Some(1700000000000)
  {
    FirstTimestamp();
    SampleEntryParsed();
  }

  /** A feed answering no vehicle: no location, and the
      watermark still moves to the reported time. */
  lemma NoVehicleResponse(p: Poller)
    ensures var body := Muni.VehicleLocationsBody(None, Some("1700000100000"), None);
            && Muni.GetVehicleLocations(Muni.StatusOk, body) == Success(Muni.VehicleLocations([], Some(1700000100000)))
            && Cycle(p, Muni.StatusOk, body, BaseWaitSecs, SpreadSecs, 0.5).next.watermark == Some(1700000100000)
  {
    var body := Muni.VehicleLocationsBody(None, Some("1700000100000"), None);
    SecondTimestamp();
  }

  /** The values of the two timestamps' decimal texts, one digit at a time. */
  lemma TimestampPrefix()
    ensures Decimal.DigitsValue("1700000") == 1700000
  {
    assert Decimal.DigitsValue("1") == 1;
    assert "17"[..1] == "1";
    assert Decimal.DigitsValue("17") == 17;
    assert "170"[..2] == "17";
    assert Decimal.DigitsValue("170") == 170;
    assert "1700"[..3] == "170";
    assert Decimal.DigitsValue("1700") == 1700;
    assert "17000"[..4] == "1700";
    assert Decimal.DigitsValue("17000") == 17000;
    assert "170000"[..5] == "17000";
    assert Decimal.DigitsValue("170000") == 170000;
    assert "1700000"[..6] == "170000";
    assert Decimal.DigitsValue("1700000") == 1700000;
  }

  lemma FirstTimestamp()
    ensures Decimal.ParseInt("1700000000000") == Some(1700000000000)
  {
    TimestampPrefix();
    assert "17000000"[..7] == "1700000";
    assert Decimal.DigitsValue("17000000") == 17000000;
    assert "170000000"[..8] == "17000000";
    assert Decimal.DigitsValue("170000000") == 170000000;
    assert "1700000000"[..9] == "170000000";
    assert Decimal.DigitsValue("1700000000") == 1700000000;
    assert "17000000000"[..10] == "1700000000";
    assert Decimal.DigitsValue("17000000000") == 17000000000;
    assert "170000000000"[..11] == "17000000000";
    assert Decimal.DigitsValue("170000000000") == 170000000000;
    assert "1700000000000"[..12] == "170000000000";
    assert Decimal.DigitsValue("1700000000000") == 1700000000000;
    Decimal.ParseIntOfDigits("1700000000000");
  }

  lemma SecondTimestamp()
    ensures Decimal.ParseInt("1700000100000") == Some(1700000100000)
  {
    TimestampPrefix();
    assert "17000001"[..7] == "1700000";
    assert Decimal.DigitsValue("17000001") == 17000001;
    assert "170000010"[..8] == "17000001";
    assert Decimal.DigitsValue("170000010") == 170000010;
    assert "1700000100"[..9] == "170000010";
    assert Decimal.DigitsValue("1700000100") == 1700000100;
    assert "17000001000"[..10] == "1700000100";
    assert Decimal.DigitsValue("17000001000") == 17000001000;
    assert "170000010000"[..11] == "17000001000";
    assert Decimal.DigitsValue("170000010000") == 170000010000;
    assert "1700000100000"[..12] == "170000010000";
    assert Decimal.DigitsValue("1700000100000") == 1700000100000;
    Decimal.ParseIntOfDigits("1700000100000");
  }

  /** A feed error: the poller keeps its watermark and goes
      on to sleep. */
  lemma FeedErrorResponse(p: Poller)
    ensures var body := Muni.VehicleLocationsBody(None, None, Some(Muni.FeedErrorObject("invalid route", "false")));
            && Muni.GetVehicleLocations(Muni.StatusOk, body) == Failure(Muni.FeedError("invalid route"))
            && Cycle(p, Muni.StatusOk, body, BaseWaitSecs, SpreadSecs, 0.5).next == p
  {
  }

  /** The watermarks of all pollers, by route tag. Each poller's watermark
      lives in its own closure, so a cycle of one route touches only that
      route's entry. */
  type Fleet = map<string, Option<int>>

  /** One poller per tag, each started from its own clock reading. */
  function StartFleet(tags: seq<string>, startMs: string -> int): (f: Fleet)
    ensures f.Keys == set t | t in tags
    ensures forall t :: t in f ==> f[t] == Start(t, startMs(t), SpreadSecs, 0.0).next.watermark
  {
    map t | t in tags :: Some(startMs(t) - LookbackMs)
  }

  /** The fleet the program starts: pollers for "J", "N", "M" and "K" and no
      other route, each five minutes behind its own clock reading. */
  lemma WhitelistFleet(startMs: string -> int)
    ensures StartFleet(RouteTagWhitelist, startMs).Keys == {"J", "N", "M", "K"}
    ensures forall t :: t in StartFleet(RouteTagWhitelist, startMs) ==>
              StartFleet(RouteTagWhitelist, startMs)[t] == Some(startMs(t) - 300000)
  {
    assert (set t | t in RouteTagWhitelist) == {"J", "N", "M", "K"};
  }

  /** A fetch by one route's poller, answered with `(status, body)`. */
  datatype Event = Event(routeTag: string, status: int, body: Muni.VehicleLocationsBody)

  /** One cycle of the poller of `e.routeTag`. */
  function FleetStep(f: Fleet, e: Event): (f': Fleet)
    requires e.routeTag in f
    ensures f'.Keys == f.Keys
    ensures forall t :: t in f && t != e.routeTag ==> f'[t] == f[t]
    ensures f'[e.routeTag] == Cycle(Poller(e.routeTag, f[e.routeTag]), e.status, e.body, BaseWaitSecs, SpreadSecs, 0.0).next.watermark
  {
    f[e.routeTag := Advance(f[e.routeTag], Muni.GetVehicleLocations(e.status, e.body))]
  }

  /** Cycles of different routes commute: the order in which the pollers'
      fetches complete does not matter. */
  lemma CyclesOfDifferentRoutesCommute(f: Fleet, a: Event, b: Event)
    requires a.routeTag in f && b.routeTag in f && a.routeTag != b.routeTag
    ensures FleetStep(FleetStep(f, a), b) == FleetStep(FleetStep(f, b), a)
  {
  }

  predicate Known(f: Fleet, events: seq<Event>) {
    forall i :: 0 <= i < |events| ==> events[i].routeTag in f
  }

  /** Cycles in the order they complete, across routes. */
  function FleetRun(f: Fleet, events: seq<Event>): (f': Fleet)
    requires Known(f, events)
    ensures f'.Keys == f.Keys
    decreases |events|
  {
    if |events| == 0 then f else FleetRun(FleetStep(f, events[0]), events[1..])
  }

  /** The fetch outcomes of one route, in order. */
  function OutcomesOf(events: seq<Event>, routeTag: string): seq<Result<Muni.VehicleLocations, Muni.FetchError>>
    decreases |events|
  {
    if |events| == 0 then []
    else
      var rest := OutcomesOf(events[1..], routeTag);
      if events[0].routeTag == routeTag
      then [Muni.GetVehicleLocations(events[0].status, events[0].body)] + rest
      else rest
  }

  /** Replays a route's outcomes from watermark `w0`. */
  function Replay(w0: Option<int>, outcomes: seq<Result<Muni.VehicleLocations, Muni.FetchError>>): (w: Option<int>)
    ensures w == Watermarks(w0, outcomes)[|outcomes|]
    decreases |outcomes|
  {
    if |outcomes| == 0 then w0 else Replay(Advance(w0, outcomes[0]), outcomes[1..])
  }

  /** Per-route independence: however the routes' cycles interleave, each
      route ends with the watermark its own poller computes from its own
      responses alone. */
  lemma {:induction false} FleetRunIsPerRoute(f: Fleet, events: seq<Event>, routeTag: string)
    requires Known(f, events) && routeTag in f
    ensures FleetRun(f, events)[routeTag] == Replay(f[routeTag], OutcomesOf(events, routeTag))
    decreases |events|
  {
    if |events| > 0 {
      var f1 := FleetStep(f, events[0]);
      assert Known(f1, events[1..]);
      FleetRunIsPerRoute(f1, events[1..], routeTag);
    }
  }
}
