/** Business hours: the per-weekday opening rules of a store, the 24/7 calendar
    used when a store has none (`get_default_business_hours`), and the filter
    that keeps only the observations made while the store was open
    (`filter_business_hours`), both in app/main.py. */
module BusinessHours {
  import opened Wrappers
  import opened TimeOfDay
  import opened Selection
  import opened Samples

  /** One row of the `business_hours` table for a given store: open on local
      weekday `dayOfWeek` (0 is Monday) from `start` to `end`, both inclusive. */
  datatype Rule = Rule(dayOfWeek: int, start: Time, end: Time)

  const Midnight: Time := Time(0, 0, 0)
  const LastSecond: Time := Time(23, 59, 59)

  /** The calendar used for a store with no rules: every weekday, 00:00:00 to 23:59:59. */
  function DefaultBusinessHours(): seq<Rule> {
    seq(7, day => Rule(day, Midnight, LastSecond))
  }

  /** Builds the default calendar one weekday at a time. */
  method GetDefaultBusinessHours() returns (hours: seq<Rule>)
    ensures |hours| == 7
    ensures forall day :: 0 <= day < 7 ==> hours[day] == Rule(day, Time(0, 0, 0), Time(23, 59, 59))
    ensures hours == DefaultBusinessHours()
  {
    hours := [];
    for day := 0 to 7
      invariant |hours| == day
      invariant forall d :: 0 <= d < day ==> hours[d] == Rule(d, Midnight, LastSecond)
    {
      hours := hours + [Rule(day, Midnight, LastSecond)];
    }
  }

  /** The rule the source consults for a weekday: the first one listed for it,
      or None when no rule names that weekday. */
  function FirstRuleFor(rules: seq<Rule>, day: int): (r: Option<Rule>)
    ensures r.None? <==> forall i :: 0 <= i < |rules| ==> rules[i].dayOfWeek != day
    ensures r.Some? ==>
      exists i :: 0 <= i < |rules| && rules[i] == r.value && r.value.dayOfWeek == day &&
        forall j :: 0 <= j < i ==> rules[j].dayOfWeek != day
  {
    if rules == [] then None
    else if rules[0].dayOfWeek == day then
      assert rules[0].dayOfWeek == day;
      Some(rules[0])
    else
      var r := FirstRuleFor(rules[1..], day);
      assert forall i :: 1 <= i < |rules| ==> rules[i] == rules[1..][i - 1];
      r
  }

  /** Appending a rule changes the lookup only for a weekday no earlier rule names. */
  lemma {:induction false} FirstRuleForAppend(rules: seq<Rule>, x: Rule, day: int)
    ensures FirstRuleFor(rules + [x], day) ==
      if FirstRuleFor(rules, day).Some? then FirstRuleFor(rules, day)
      else if x.dayOfWeek == day then Some(x)
      else None
  {
    if rules != [] {
      assert (rules + [x])[1..] == rules[1..] + [x];
      FirstRuleForAppend(rules[1..], x, day);
    }
  }

  /** Whether a store following `rules` is open at local time `lt`: its weekday has
      a rule, and the time of day lies between that rule's start and end, both
      bounds included. */
  predicate InBusinessHours(rules: seq<Rule>, lt: LocalTime) {
    match FirstRuleFor(rules, lt.weekday)
    case None => false
    case Some(rule) => AtOrBefore(rule.start, lt.time) && AtOrBefore(lt.time, rule.end)
  }

  /** The filter's test for one sample, given the store's conversion from UTC
      instants to local civil time. */
  function OpenAt(rules: seq<Rule>, local: int -> LocalTime): Sample -> bool {
    (x: Sample) => InBusinessHours(rules, local(x.instant))
  }

  /** Walks the samples in order and keeps those taken during business hours. */
  method FilterBusinessHours(samples: seq<Sample>, rules: seq<Rule>, local: int -> LocalTime)
    returns (filtered: seq<Sample>)
    ensures filtered == Select(samples, OpenAt(rules, local))
    ensures forall x :: x in filtered <==> x in samples && InBusinessHours(rules, local(x.instant))
    ensures Ascending(samples) ==> Ascending(filtered)
  {
    filtered := [];
    for i := 0 to |samples|
      invariant filtered == Select(samples[..i], OpenAt(rules, local))
    {
      var row := samples[i];
      var localTime := local(row.instant);
      var bh := FirstRuleFor(rules, localTime.weekday);
      if bh.Some? {
        var startTime, endTime := bh.value.start, bh.value.end;
        if AtOrBefore(startTime, localTime.time) && AtOrBefore(localTime.time, endTime) {
          filtered := filtered + [row];
        }
      }
      assert samples[..i + 1][..i] == samples[..i];
    }
    assert samples[..|samples|] == samples;
    SelectMembers(samples, OpenAt(rules, local));
    if Ascending(samples) {
      SelectKeepsAscending(samples, OpenAt(rules, local));
    }
  }

  /** With the default calendar a sample is kept exactly when its local weekday is
      one of 0..6 and its time of day is a valid time: every day is open all day. */
  lemma DefaultHoursAlwaysOpen(lt: LocalTime)
    requires lt.time.Valid()
    ensures InBusinessHours(DefaultBusinessHours(), lt) <==> 0 <= lt.weekday < 7
  {
    var rules := DefaultBusinessHours();
    if 0 <= lt.weekday < 7 {
      assert rules[lt.weekday].dayOfWeek == lt.weekday;
      var r := FirstRuleFor(rules, lt.weekday);
      AtOrBeforeIffSeconds(Midnight, lt.time);
      AtOrBeforeIffSeconds(lt.time, LastSecond);
    }
  }

  /** For valid times the inclusive test on `time` values is the inclusive
      interval test on seconds since midnight. */
  lemma InBusinessHoursSeconds(rules: seq<Rule>, lt: LocalTime)
    requires lt.time.Valid()
    requires forall i :: 0 <= i < |rules| ==> rules[i].start.Valid() && rules[i].end.Valid()
    ensures InBusinessHours(rules, lt) <==>
      FirstRuleFor(rules, lt.weekday).Some? &&
      FirstRuleFor(rules, lt.weekday).value.start.ToSeconds() <= lt.time.ToSeconds() <=
        FirstRuleFor(rules, lt.weekday).value.end.ToSeconds()
  {
    var r := FirstRuleFor(rules, lt.weekday);
    if r.Some? {
      AtOrBeforeIffSeconds(r.value.start, lt.time);
      AtOrBeforeIffSeconds(lt.time, r.value.end);
    }
  }
}
