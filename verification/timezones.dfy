/** Timezone configuration: the per-store lookup with its default
    (`get_store_timezone`, app/main.py) and the resolution of a zone name the
    conversion library does not know (app/main.py, `calculate_uptime_downtime`). */
module Timezones {
  import opened Wrappers
  import opened TimeOfDay
  import opened Samples

  const DefaultTimezone: string := "America/Chicago"

  /** One row of the `timezones` table. */
  datatype TimezoneRow = TimezoneRow(store: StoreId, timezoneStr: string)

  /** The zone of a store: the zone of the first row for that store, or the
      default zone when the table has no row for it. */
  function GetStoreTimezone(store: StoreId, timezones: seq<TimezoneRow>): (zone: string)
    ensures (forall i :: 0 <= i < |timezones| ==> timezones[i].store != store) ==>
      zone == DefaultTimezone
    ensures (exists i :: 0 <= i < |timezones| && timezones[i].store == store) ==>
      exists i :: 0 <= i < |timezones| && timezones[i].store == store &&
        zone == timezones[i].timezoneStr &&
        forall j :: 0 <= j < i ==> timezones[j].store != store
  {
    if timezones == [] then DefaultTimezone
    else if timezones[0].store == store then
      assert timezones[0].store == store;
      timezones[0].timezoneStr
    else
      var zone := GetStoreTimezone(store, timezones[1..]);
      assert forall i :: 1 <= i < |timezones| ==> timezones[i] == timezones[1..][i - 1];
      zone
  }

  /** What the timezone library offers the engine: the zone names it knows and,
      for a known zone, the local civil time of a UTC instant. The conversion
      itself is a parameter of the model. */
  datatype ZoneDb = ZoneDb(known: set<string>, localOf: (string, int) -> LocalTime)

  /** The zone actually used for a store: its own when the library knows it,
      otherwise the default; None when the default is unknown too, in which case
      the source's fallback raises. */
  function ResolveZone(zone: string, db: ZoneDb): (r: Option<string>)
    ensures r.Some? <==> zone in db.known || DefaultTimezone in db.known
    ensures r.Some? ==> r.value in db.known
    ensures zone in db.known ==> r == Some(zone)
    ensures zone !in db.known && r.Some? ==> r.value == DefaultTimezone
  {
    if zone in db.known then Some(zone)
    else if DefaultTimezone in db.known then Some(DefaultTimezone)
    else None
  }

  /** The conversion to one zone's local time, as a function of the instant. */
  function LocalClock(db: ZoneDb, zone: string): int -> LocalTime {
    t => db.localOf(zone, t)
  }
}
