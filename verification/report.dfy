/** The batch orchestrator, `generate_report_df` in app/main.py (and the same
    per-store loop in `generate_report`): the reference instant, one row per
    distinct store in order of first appearance, and a zero row for a store whose
    computation fails. */
module Report {
  import opened Wrappers
  import opened TimeOfDay
  import opened Selection
  import opened Samples
  import opened BusinessHours
  import opened Timezones
  import opened Integrator
  import opened Aggregator

  /** A row of the `business_hours` table as the database returns it: opening and
      closing times are durations, here whole seconds. */
  datatype RawHourRow = RawHourRow(store: StoreId, dayOfWeek: int, startSeconds: int, endSeconds: int)

  /** The same row once its two durations have been converted to times of day. */
  datatype HourRow = HourRow(store: StoreId, rule: Rule)

  /** One output row: a store and its six metrics. */
  datatype Row = Row(store: StoreId, metrics: Metrics)

  /** The failures that abort the whole report rather than one store. */
  datatype BatchError =
    | InvalidBusinessHourTime  // a business-hours duration outside 0..23:59:59
    | NoStatusData             // the status table is empty
    | MissingStoreIdColumn     // the timezone or business-hours table is empty, so has no columns

  /** The conversion of both time columns of the business-hours table; one
      duration that does not fit a time of day makes the whole read fail. */
  function ConvertHourRows(raw: seq<RawHourRow>): (r: Option<seq<HourRow>>)
    ensures r.Some? <==> forall i :: 0 <= i < |raw| ==>
      0 <= raw[i].startSeconds < SecondsPerDay && 0 <= raw[i].endSeconds < SecondsPerDay
    ensures r.Some? ==> |r.value| == |raw|
    ensures r.Some? ==> forall i :: 0 <= i < |raw| ==>
      r.value[i].store == raw[i].store && r.value[i].rule.dayOfWeek == raw[i].dayOfWeek &&
      r.value[i].rule.start.Valid() && r.value[i].rule.start.ToSeconds() == raw[i].startSeconds &&
      r.value[i].rule.end.Valid() && r.value[i].rule.end.ToSeconds() == raw[i].endSeconds
  {
    if raw == [] then Some([])
    else
      var row := raw[0];
      var rest := ConvertHourRows(raw[1..]);
      match (ConvertTimedeltaToTime(row.startSeconds), ConvertTimedeltaToTime(row.endSeconds), rest)
      case (Some(start), Some(end), Some(rows)) =>
        var r := [HourRow(row.store, Rule(row.dayOfWeek, start, end))] + rows;
        assert forall i :: 1 <= i < |raw| ==> raw[i] == raw[1..][i - 1] && r[i] == rows[i - 1];
        Some(r)
      case _ =>
        assert forall i :: 1 <= i < |raw| ==> raw[i] == raw[1..][i - 1];
        None
  }

  /** The reference instant: the latest timestamp of the whole batch. */
  function MaxInstant(samples: seq<Sample>): (m: int)
    requires samples != []
    ensures forall i :: 0 <= i < |samples| ==> samples[i].instant <= m
    ensures exists i :: 0 <= i < |samples| && samples[i].instant == m
  {
    if |samples| == 1 then samples[0].instant
    else
      var m := MaxInstant(samples[1..]);
      assert forall i :: 1 <= i < |samples| ==> samples[i] == samples[1..][i - 1];
      if samples[0].instant >= m then samples[0].instant else m
  }

  /** The store column of the status table. */
  function StoreIds(samples: seq<Sample>): seq<StoreId> {
    seq(|samples|, i requires 0 <= i < |samples| => samples[i].store)
  }

  /** The distinct values of a column in order of first appearance, as pandas'
      `unique` returns them. */
  function Distinct(ids: seq<StoreId>): seq<StoreId> {
    if ids == [] then []
    else
      var seen := Distinct(ids[..|ids| - 1]);
      var x := ids[|ids| - 1];
      if x in seen then seen else seen + [x]
  }

  /** The position at which a value first occurs. */
  function FirstIndex(ids: seq<StoreId>, x: StoreId): (k: int)
    requires x in ids
    ensures 0 <= k < |ids| && ids[k] == x
    ensures forall j :: 0 <= j < k ==> ids[j] != x
  {
    if ids[0] == x then 0
    else
      var k := FirstIndex(ids[1..], x);
      assert forall j :: 1 <= j < |ids| ==> ids[j] == ids[1..][j - 1];
      k + 1
  }

  /** `Distinct` lists every value of the column exactly once, ordered by where
      each first appears. */
  lemma {:induction false} DistinctSpec(ids: seq<StoreId>)
    ensures forall x :: x in Distinct(ids) <==> x in ids
    ensures forall i, j :: 0 <= i < j < |Distinct(ids)| ==> Distinct(ids)[i] != Distinct(ids)[j]
    ensures forall i, j :: 0 <= i < j < |Distinct(ids)| ==>
      FirstIndex(ids, Distinct(ids)[i]) < FirstIndex(ids, Distinct(ids)[j])
  {
    if ids != [] {
      var n := |ids| - 1;
      var init := ids[..n];
      var x := ids[n];
      DistinctSpec(init);
      var seen := Distinct(init);
      assert ids == init + [x];
      forall y | y in seen
        ensures FirstIndex(ids, y) == FirstIndex(init, y)
      {
        var k := FirstIndex(init, y);
        assert ids[k] == y;
        var k' := FirstIndex(ids, y);
        assert k' <= k;
        assert init[k'] == ids[k'];
      }
      if x !in seen {
        assert FirstIndex(ids, x) == n;
        forall y | y in seen
          ensures FirstIndex(ids, y) < n
        {
          assert FirstIndex(init, y) < |init|;
        }
      }
    }
  }

  /** The pandas mask `store_status['store_id'] == store_id`. */
  function OfStore(store: StoreId): Sample -> bool {
    (x: Sample) => x.store == store
  }

  /** The pandas mask `business_hours['store_id'] == store_id`. */
  function HoursOfStore(store: StoreId): HourRow -> bool {
    (h: HourRow) => h.store == store
  }

  /** The rule a business-hours row carries. */
  function RuleOfRow(h: HourRow): Rule {
    h.rule
  }

  /** The business-hours rows of one store, as rules, in table order. */
  function StoreRules(hours: seq<HourRow>, store: StoreId): (rules: seq<Rule>)
    ensures forall r :: r in rules <==> HourRow(store, r) in hours
  {
    if hours == [] then []
    else
      var init := hours[..|hours| - 1];
      var last := hours[|hours| - 1];
      assert hours == init + [last];
      var rules := StoreRules(init, store);
      if last.store == store then rules + [last.rule] else rules
  }

  /** A store's rules are the rules of the rows the store mask selects, one per
      row and in table order. */
  lemma {:induction false} StoreRulesInTableOrder(hours: seq<HourRow>, store: StoreId)
    ensures StoreRules(hours, store) == MapSeq(Select(hours, HoursOfStore(store)), RuleOfRow)
  {
    if hours != [] {
      StoreRulesInTableOrder(hours[..|hours| - 1], store);
    }
  }

  /** Whether a business-hours row is one of `store`'s rules for weekday `day`. */
  predicate NamesStoreDay(h: HourRow, store: StoreId, day: int) {
    h.store == store && h.rule.dayOfWeek == day
  }

  /** The rule a store is filtered by on a weekday is that of the first row of the
      whole table naming both the store and the weekday; there is none exactly
      when no row names both. */
  lemma {:induction false} StoreRuleForDay(hours: seq<HourRow>, store: StoreId, day: int)
    ensures FirstRuleFor(StoreRules(hours, store), day).None? <==>
      forall i :: 0 <= i < |hours| ==> !NamesStoreDay(hours[i], store, day)
    ensures FirstRuleFor(StoreRules(hours, store), day).Some? ==>
      exists i :: 0 <= i < |hours| && NamesStoreDay(hours[i], store, day) &&
        FirstRuleFor(StoreRules(hours, store), day).value == hours[i].rule &&
        forall j :: 0 <= j < i ==> !NamesStoreDay(hours[j], store, day)
  {
    if hours != [] {
      var n := |hours| - 1;
      var init := hours[..n];
      var last := hours[n];
      var before := FirstRuleFor(StoreRules(init, store), day);
      var r := FirstRuleFor(StoreRules(hours, store), day);
      StoreRuleForDay(init, store, day);
      if last.store == store {
        assert StoreRules(hours, store) == StoreRules(init, store) + [last.rule];
        FirstRuleForAppend(StoreRules(init, store), last.rule, day);
      } else {
        assert StoreRules(hours, store) == StoreRules(init, store);
      }
      assert r == if before.Some? then before else if NamesStoreDay(last, store, day) then Some(last.rule) else None;
      if before.Some? {
        var i :| 0 <= i < n && NamesStoreDay(init[i], store, day) && before.value == init[i].rule &&
          forall j :: 0 <= j < i ==> !NamesStoreDay(init[j], store, day);
        assert forall j :: 0 <= j <= i ==> init[j] == hours[j];
      } else if NamesStoreDay(last, store, day) {
        assert forall j :: 0 <= j < n ==> init[j] == hours[j];
      } else {
        assert forall j :: 0 <= j < n ==> init[j] == hours[j];
      }
    }
  }

  /** One store's row: its metrics, or all zeros when computing them failed. */
  function RowFor(store: StoreId, samples: seq<Sample>, timezones: seq<TimezoneRow>,
                  hours: seq<HourRow>, now: int, db: ZoneDb): (row: Row)
    ensures row.store == store
    ensures forall w :: w in row.metrics <==> w in Windows
  {
    var zone := GetStoreTimezone(store, timezones);
    var storeData := Select(samples, OfStore(store));
    var metrics := StoreMetrics(storeData, zone, StoreRules(hours, store), now, db);
    if metrics.Ok? then
      StoreMetricsComplete(storeData, zone, StoreRules(hours, store), now, db);
      Row(store, metrics.value)
    else
      Row(store, ZeroMetrics)
  }

  /** The row computation for one batch, as a function of the store. */
  function RowOf(samples: seq<Sample>, timezones: seq<TimezoneRow>, hours: seq<HourRow>, now: int, db: ZoneDb)
    : StoreId -> Row
  {
    store => RowFor(store, samples, timezones, hours, now, db)
  }

  /** The batch runs to completion exactly when the status table has rows, the
      timezone and business-hours tables are not empty, and every business-hours
      duration is a time of day. */
  predicate ReportSucceeds(samples: seq<Sample>, timezones: seq<TimezoneRow>, rawHours: seq<RawHourRow>) {
    samples != [] && timezones != [] && rawHours != [] &&
    forall i :: 0 <= i < |rawHours| ==>
      0 <= rawHours[i].startSeconds < SecondsPerDay && 0 <= rawHours[i].endSeconds < SecondsPerDay
  }

  /** What `generate_report_df` returns, or the error it raises. */
  function GenerateReport(samples: seq<Sample>, timezones: seq<TimezoneRow>, rawHours: seq<RawHourRow>, db: ZoneDb)
    : (r: Result<seq<Row>, BatchError>)
    ensures r.Ok? <==> ReportSucceeds(samples, timezones, rawHours)
    ensures r.Ok? ==> |r.value| == |Distinct(StoreIds(samples))|
  {
    match ConvertHourRows(rawHours)
    case None => Err(InvalidBusinessHourTime)
    case Some(hours) =>
      if samples == [] then Err(NoStatusData)
      else if timezones == [] || rawHours == [] then Err(MissingStoreIdColumn)
      else Ok(MapSeq(Distinct(StoreIds(samples)), RowOf(samples, timezones, hours, MaxInstant(samples), db)))
  }

  /** The source's procedure: read the tables, fix the reference instant, then for
      each distinct store compute its metrics and append a row, a zero row when the
      computation fails. */
  method GenerateReportDf(samples: seq<Sample>, timezones: seq<TimezoneRow>, rawHours: seq<RawHourRow>, db: ZoneDb)
    returns (r: Result<seq<Row>, BatchError>)
    ensures r == GenerateReport(samples, timezones, rawHours, db)
    ensures samples == [] ==> r.Err? && r.error in {NoStatusData, InvalidBusinessHourTime}
    ensures r.Ok? ==> samples != [] && timezones != [] && rawHours != []
  {
    var converted := ConvertHourRows(rawHours);
    if converted.None? {
      return Err(InvalidBusinessHourTime);
    }
    var businessHours := converted.value;
    if samples == [] {
      return Err(NoStatusData);
    }
    var currentTime := MaxInstant(samples);
    if timezones == [] || rawHours == [] {
      return Err(MissingStoreIdColumn);
    }
    var stores := Distinct(StoreIds(samples));
    var results := ProcessStores(stores, samples, timezones, businessHours, currentTime, db);
    r := Ok(results);
  }

  /** The loop over the distinct stores: compute each store's metrics and append
      its row, or a zero row when the computation fails. */
  method ProcessStores(stores: seq<StoreId>, samples: seq<Sample>, timezones: seq<TimezoneRow>,
                       businessHours: seq<HourRow>, currentTime: int, db: ZoneDb)
    returns (results: seq<Row>)
    ensures results == MapSeq(stores, RowOf(samples, timezones, businessHours, currentTime, db))
  {
    results := [];
    for i := 0 to |stores|
      invariant results == MapSeq(stores[..i], RowOf(samples, timezones, businessHours, currentTime, db))
    {
      var storeId := stores[i];
      var storeTimezone := GetStoreTimezone(storeId, timezones);
      var storeHours := StoreRules(businessHours, storeId);
      var storeData := Select(samples, OfStore(storeId));
      var metrics := CalculateUptimeDowntime(storeData, storeTimezone, storeHours, currentTime, db);
      var row := if metrics.Ok? then Row(storeId, metrics.value) else Row(storeId, ZeroMetrics);
      assert row == RowFor(storeId, samples, timezones, businessHours, currentTime, db);
      results := results + [row];
      assert stores[..i + 1][..i] == stores[..i];
    }
    assert stores[..|stores|] == stores;
  }

  /** A successful report is the row computation applied to each distinct store. */
  lemma ReportIsRowPerStore(samples: seq<Sample>, timezones: seq<TimezoneRow>, rawHours: seq<RawHourRow>, db: ZoneDb)
    requires ReportSucceeds(samples, timezones, rawHours)
    ensures samples != [] && ConvertHourRows(rawHours).Some?
    ensures var rows := GenerateReport(samples, timezones, rawHours, db).value;
      var stores := Distinct(StoreIds(samples));
      |rows| == |stores| &&
      forall k :: 0 <= k < |rows| ==>
        rows[k] == RowFor(stores[k], samples, timezones, ConvertHourRows(rawHours).value, MaxInstant(samples), db)
  {
    var hours := ConvertHourRows(rawHours).value;
    MapSeqAt(Distinct(StoreIds(samples)), RowOf(samples, timezones, hours, MaxInstant(samples), db));
  }

  /** A successful report has exactly one row per distinct store of the status
      table, in order of each store's first appearance. */
  lemma ReportStores(samples: seq<Sample>, timezones: seq<TimezoneRow>, rawHours: seq<RawHourRow>, db: ZoneDb)
    requires ReportSucceeds(samples, timezones, rawHours)
    ensures var rows := GenerateReport(samples, timezones, rawHours, db).value;
      var ids := StoreIds(samples);
      (forall x :: x in ids <==> exists k :: 0 <= k < |rows| && rows[k].store == x) &&
      (forall k, l :: 0 <= k < l < |rows| ==>
        rows[k].store != rows[l].store && FirstIndex(ids, rows[k].store) < FirstIndex(ids, rows[l].store))
  {
    ReportIsRowPerStore(samples, timezones, rawHours, db);
    DistinctSpec(StoreIds(samples));
  }

  /** Each row is computed from that store's own samples, rules and zone and the
      batch-wide latest timestamp alone, and is all zeros when that store's
      computation fails: one store's failure leaves the other rows as they are. */
  lemma ReportRowMetrics(samples: seq<Sample>, timezones: seq<TimezoneRow>, rawHours: seq<RawHourRow>, db: ZoneDb)
    requires ReportSucceeds(samples, timezones, rawHours)
    ensures samples != [] && ConvertHourRows(rawHours).Some?
    ensures var rows := GenerateReport(samples, timezones, rawHours, db).value;
      forall k :: 0 <= k < |rows| ==>
        var store := rows[k].store;
        var metrics := StoreMetrics(Select(samples, OfStore(store)), GetStoreTimezone(store, timezones),
                                    StoreRules(ConvertHourRows(rawHours).value, store), MaxInstant(samples), db);
        rows[k].metrics == (if metrics.Ok? then metrics.value else ZeroMetrics)
  {
    ReportIsRowPerStore(samples, timezones, rawHours, db);
  }

  /** A store's row, when that store's own samples ascend (other stores' samples
      may interleave in any way): every window holds non-negative uptime and
      downtime adding up to nothing or to exactly the window's length. */
  lemma RowCoversWindows(store: StoreId, samples: seq<Sample>, timezones: seq<TimezoneRow>,
                         hours: seq<HourRow>, now: int, db: ZoneDb)
    requires Ascending(Select(samples, OfStore(store)))
    ensures CoversWindows(RowFor(store, samples, timezones, hours, now, db).metrics)
  {
    var storeData := Select(samples, OfStore(store));
    var zone := GetStoreTimezone(store, timezones);
    if StoreMetrics(storeData, zone, StoreRules(hours, store), now, db).Ok? {
      WindowsCoverTheirLength(storeData, zone, StoreRules(hours, store), now, db);
    }
  }

  /** On a batch in which each store's own samples ascend (a batch grouped by
      store, for instance), every row's windows hold non-negative uptime and
      downtime adding up to nothing or to exactly the window's length. */
  lemma ReportWindowsCoverTheirLength(samples: seq<Sample>, timezones: seq<TimezoneRow>, rawHours: seq<RawHourRow>, db: ZoneDb)
    requires forall store :: Ascending(Select(samples, OfStore(store)))
    requires ReportSucceeds(samples, timezones, rawHours)
    ensures var rows := GenerateReport(samples, timezones, rawHours, db).value;
      forall k :: 0 <= k < |rows| ==> CoversWindows(rows[k].metrics)
  {
    var stores := Distinct(StoreIds(samples));
    var hours := ConvertHourRows(rawHours).value;
    var now := MaxInstant(samples);
    var rows := GenerateReport(samples, timezones, rawHours, db).value;
    ReportIsRowPerStore(samples, timezones, rawHours, db);
    forall k | 0 <= k < |rows|
      ensures CoversWindows(rows[k].metrics)
    {
      RowCoversWindows(stores[k], samples, timezones, hours, now, db);
    }
  }
}
