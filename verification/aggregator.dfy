/** The window aggregator, `calculate_uptime_downtime` in app/main.py: one
    store's three trailing windows, each integrated independently from the same
    business-hours samples. */
module Aggregator {
  import opened Wrappers
  import opened TimeOfDay
  import opened Selection
  import opened Samples
  import opened BusinessHours
  import opened Timezones
  import opened Integrator

  /** The three trailing windows, each ending at the reference instant. */
  datatype Window = LastHour | LastDay | LastWeek

  const Windows: seq<Window> := [LastHour, LastDay, LastWeek]

  /** Window lengths in seconds: one hour, one day, one week. */
  function Length(w: Window): int {
    match w
    case LastHour => 3600
    case LastDay => 86400
    case LastWeek => 604800
  }

  /** The six metrics of a store, keyed by window. */
  type Metrics = map<Window, Totals>

  const ZeroMetrics: Metrics :=
    map[LastHour := Totals(0, 0), LastDay := Totals(0, 0), LastWeek := Totals(0, 0)]

  /** The per-store failure the source can meet: neither the store's zone nor the
      default zone is known to the timezone library. */
  datatype StoreError = UnknownTimezone

  /** The rules a store is filtered with: its own, or the 24/7 default when it has none. */
  function EffectiveRules(storeRules: seq<Rule>): seq<Rule> {
    if storeRules == [] then DefaultBusinessHours() else storeRules
  }

  /** The samples of a store that fall within its business hours in zone `tz`. */
  function OpenSamples(storeData: seq<Sample>, tz: string, storeRules: seq<Rule>, db: ZoneDb): seq<Sample> {
    Select(storeData, OpenAt(EffectiveRules(storeRules), LocalClock(db, tz)))
  }

  /** Every window is reported, with non-negative uptime and downtime that add up
      either to nothing (no sample to integrate) or to exactly the window's length. */
  predicate CoversWindows(m: Metrics) {
    forall w :: w in Windows ==>
      w in m && m[w].uptime >= 0 && m[w].downtime >= 0 &&
      (m[w].uptime + m[w].downtime == 0 || m[w].uptime + m[w].downtime == Length(w))
  }

  /** The first `n` windows, each integrated on its own from the same samples
      and ending at `now`. */
  function FirstWindows(filtered: seq<Sample>, now: int, n: nat): Metrics
    requires n <= |Windows|
  {
    if n == 0 then map[]
    else
      var w := Windows[n - 1];
      FirstWindows(filtered, now, n - 1)[w := Integrate(filtered, now - Length(w), now)]
  }

  /** All three windows. */
  function WindowTotals(filtered: seq<Sample>, now: int): Metrics {
    FirstWindows(filtered, now, |Windows|)
  }

  /** Each window's totals are those of the integrator on the same samples over
      [now - length, now], independently of the other windows. */
  lemma WindowTotalsAt(filtered: seq<Sample>, now: int)
    ensures forall w :: w in WindowTotals(filtered, now) <==> w in Windows
    ensures forall w :: w in Windows ==>
      WindowTotals(filtered, now)[w] == Integrate(filtered, now - Length(w), now)
  {
    var m0 := FirstWindows(filtered, now, 0);
    var m1 := FirstWindows(filtered, now, 1);
    var m2 := FirstWindows(filtered, now, 2);
    assert Windows[0] == LastHour && Windows[1] == LastDay && Windows[2] == LastWeek;
    assert m0 == map[];
    assert m1 == m0[LastHour := Integrate(filtered, now - Length(LastHour), now)];
    assert m2 == m1[LastDay := Integrate(filtered, now - Length(LastDay), now)];
    assert WindowTotals(filtered, now) == m2[LastWeek := Integrate(filtered, now - Length(LastWeek), now)];
  }

  /** What `calculate_uptime_downtime` returns for one store, or the error it raises. */
  function StoreMetrics(storeData: seq<Sample>, zone: string, storeRules: seq<Rule>, now: int, db: ZoneDb)
    : Result<Metrics, StoreError>
  {
    if storeData == [] then Ok(ZeroMetrics)
    else
      match ResolveZone(zone, db)
      case None => Err(UnknownTimezone)
      case Some(tz) => Ok(WindowTotals(OpenSamples(storeData, tz, storeRules, db), now))
  }

  /** The loop over the three timeframes, each integrated from the same samples. */
  method IntegrateWindows(filteredStatus: seq<Sample>, now: int) returns (results: Metrics)
    ensures results == WindowTotals(filteredStatus, now)
  {
    results := map[];
    for i := 0 to |Windows|
      invariant results == FirstWindows(filteredStatus, now, i)
    {
      var timeframe := Windows[i];
      var startTime := now - Length(timeframe);
      var uptime, downtime := CalculateTime(filteredStatus, startTime, now);
      results := results[timeframe := Totals(uptime, downtime)];
    }
  }

  /** The source's procedure: the early return for a store without samples, the
      zone fallback, the default calendar, the filter, and the three windows. */
  method CalculateUptimeDowntime(storeData: seq<Sample>, zone: string, storeRules: seq<Rule>, now: int, db: ZoneDb)
    returns (r: Result<Metrics, StoreError>)
    ensures r == StoreMetrics(storeData, zone, storeRules, now, db)
    ensures storeData == [] ==> r == Ok(ZeroMetrics)
  {
    if storeData == [] {
      return Ok(ZeroMetrics);
    }
    var tz := ResolveZone(zone, db);
    if tz.None? {
      return Err(UnknownTimezone);
    }
    var businessHours := storeRules;
    if businessHours == [] {
      businessHours := GetDefaultBusinessHours();
    }
    assert businessHours == EffectiveRules(storeRules);
    var filteredStatus := FilterBusinessHours(storeData, businessHours, LocalClock(db, tz.value));
    assert filteredStatus == OpenSamples(storeData, tz.value, storeRules, db);
    assert StoreMetrics(storeData, zone, storeRules, now, db) == Ok(WindowTotals(filteredStatus, now));
    var results := IntegrateWindows(filteredStatus, now);
    r := Ok(results);
  }

  /** A successful computation always reports all three windows. */
  lemma StoreMetricsComplete(storeData: seq<Sample>, zone: string, storeRules: seq<Rule>, now: int, db: ZoneDb)
    requires StoreMetrics(storeData, zone, storeRules, now, db).Ok?
    ensures forall w :: w in StoreMetrics(storeData, zone, storeRules, now, db).value <==> w in Windows
  {
    if storeData != [] {
      WindowTotalsAt(OpenSamples(storeData, ResolveZone(zone, db).value, storeRules, db), now);
    }
  }

  /** When the store's zone is unknown but the default is known, the store is
      reported exactly as if it were in the default zone. */
  lemma UnknownZoneUsesDefault(storeData: seq<Sample>, zone: string, storeRules: seq<Rule>, now: int, db: ZoneDb)
    requires zone !in db.known && DefaultTimezone in db.known
    ensures StoreMetrics(storeData, zone, storeRules, now, db) ==
            StoreMetrics(storeData, DefaultTimezone, storeRules, now, db)
  {
  }

  /** For samples in any order and a zone that resolves, every window's uptime
      and downtime add up to nothing exactly when no sample survived the
      business-hours filter, and otherwise to exactly the window's length. */
  lemma WindowsSumToLength(storeData: seq<Sample>, zone: string, storeRules: seq<Rule>, now: int, db: ZoneDb)
    requires storeData != []
    requires ResolveZone(zone, db).Some?
    ensures StoreMetrics(storeData, zone, storeRules, now, db).Ok?
    ensures var m := StoreMetrics(storeData, zone, storeRules, now, db).value;
      var filtered := OpenSamples(storeData, ResolveZone(zone, db).value, storeRules, db);
      forall w :: w in Windows ==>
        w in m && m[w].uptime + m[w].downtime == (if filtered == [] then 0 else Length(w))
  {
    var filtered := OpenSamples(storeData, ResolveZone(zone, db).value, storeRules, db);
    WindowTotalsAt(filtered, now);
    forall w | w in Windows
      ensures var t := Integrate(filtered, now - Length(w), now);
        t.uptime + t.downtime == (if filtered == [] then 0 else Length(w))
    {
      if filtered != [] {
        IntegrateSumsToWindow(filtered, now - Length(w), now);
      }
    }
  }

  /** With samples in ascending order and a zone that resolves, every window's
      uptime and downtime are non-negative and add up either to nothing (no sample
      survived the business-hours filter) or to exactly the window's length. */
  lemma WindowsCoverTheirLength(storeData: seq<Sample>, zone: string, storeRules: seq<Rule>, now: int, db: ZoneDb)
    requires Ascending(storeData)
    requires StoreMetrics(storeData, zone, storeRules, now, db).Ok?
    ensures CoversWindows(StoreMetrics(storeData, zone, storeRules, now, db).value)
  {
    if storeData != [] {
      var tz := ResolveZone(zone, db).value;
      var filtered := OpenSamples(storeData, tz, storeRules, db);
      WindowTotalsAt(filtered, now);
      SelectKeepsAscending(storeData, OpenAt(EffectiveRules(storeRules), LocalClock(db, tz)));
      forall w | w in Windows
        ensures var t := Integrate(filtered, now - Length(w), now);
          t.uptime >= 0 && t.downtime >= 0 &&
          (t.uptime + t.downtime == 0 || t.uptime + t.downtime == Length(w))
      {
        if filtered != [] {
          IntegrateCoversWindow(filtered, now - Length(w), now);
        }
      }
    }
  }

  /** A store with samples but no business-hour rules is counted around the
      clock, whatever the order of its samples: when its zone resolves and every
      local time the library yields is a valid time on a weekday 0..6, no sample
      is filtered out and every window is fully accounted for, with uptime plus
      downtime equal to the window's length. */
  lemma MissingRulesCountAllDay(storeData: seq<Sample>, zone: string, now: int, db: ZoneDb)
    requires storeData != []
    requires ResolveZone(zone, db).Some?
    requires forall z, t :: 0 <= db.localOf(z, t).weekday < 7 && db.localOf(z, t).time.Valid()
    ensures StoreMetrics(storeData, zone, [], now, db).Ok?
    ensures var m := StoreMetrics(storeData, zone, [], now, db).value;
      forall w :: w in Windows ==> w in m && m[w].uptime + m[w].downtime == Length(w)
  {
    var tz := ResolveZone(zone, db).value;
    var keep := OpenAt(EffectiveRules([]), LocalClock(db, tz));
    forall x | x in storeData
      ensures keep(x)
    {
      DefaultHoursAlwaysOpen(db.localOf(tz, x.instant));
    }
    SelectAll(storeData, keep);
    WindowTotalsAt(storeData, now);
    forall w | w in Windows
      ensures var t := Integrate(storeData, now - Length(w), now);
        t.uptime + t.downtime == Length(w)
    {
      IntegrateSumsToWindow(storeData, now - Length(w), now);
    }
  }
}
