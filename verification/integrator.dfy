/** The interval integrator, `calculate_time` in app/main.py: from one store's
    business-hours samples, the seconds of uptime and of downtime it attributes
    to a window [start, end] of UTC instants. */
module Integrator {
  import opened Samples

  /** Uptime and downtime of one window, in seconds. */
  datatype Totals = Totals(uptime: int, downtime: int)

  /** The variables the scan updates: the two running totals, the instant up to
      which time has been attributed, and the status of the last sample counted. */
  datatype Acc = Acc(uptime: int, downtime: int, previous: int, last: Status)

  /** The state before the first sample: nothing attributed, attribution starts at
      the window start, and the assumed status is inactive. */
  function Initial(start: int): Acc {
    Acc(0, 0, start, Inactive)
  }

  /** Counting an in-window sample: the interval since the previous counted
      instant goes to the status of the sample that ends it. */
  function Count(a: Acc, x: Sample): Acc {
    var interval := x.instant - a.previous;
    if x.status == Active then Acc(a.uptime + interval, a.downtime, x.instant, x.status)
    else Acc(a.uptime, a.downtime + interval, x.instant, x.status)
  }

  /** The scan over the samples in their given order: it stops at the first sample
      after `end`, passes over samples before `start` without effect, and counts
      the others. */
  function Walk(s: seq<Sample>, start: int, end: int, a: Acc): Acc
    decreases |s|
  {
    if s == [] || s[0].instant > end then a
    else if s[0].instant >= start then Walk(s[1..], start, end, Count(a, s[0]))
    else Walk(s[1..], start, end, a)
  }

  /** The tail: whatever remains of the window after the last counted instant goes
      to the last counted status (or to the assumed inactive status). */
  function Close(a: Acc, end: int): Totals {
    if a.previous < end then
      var lastInterval := end - a.previous;
      if a.last == Active then Totals(a.uptime + lastInterval, a.downtime)
      else Totals(a.uptime, a.downtime + lastInterval)
    else Totals(a.uptime, a.downtime)
  }

  /** What `calculate_time` returns, in seconds; an empty sample list gives no
      time at all rather than a window of downtime. */
  function Integrate(s: seq<Sample>, start: int, end: int): Totals {
    if s == [] then Totals(0, 0)
    else Close(Walk(s, start, end, Initial(start)), end)
  }

  /** The source's loop, with its early exit at the first sample after the window. */
  method CalculateTime(filtered: seq<Sample>, start: int, end: int)
    returns (uptime: int, downtime: int)
    ensures Totals(uptime, downtime) == Integrate(filtered, start, end)
    ensures filtered == [] ==> uptime == 0 && downtime == 0
  {
    if filtered == [] {
      return 0, 0;
    }
    uptime, downtime := 0, 0;
    var previousTime := start;
    var lastStatus := Inactive;
    ghost var scanned := Walk(filtered, start, end, Initial(start));
    var i := 0;
    while i < |filtered|
      invariant 0 <= i <= |filtered|
      invariant Walk(filtered[i..], start, end, Acc(uptime, downtime, previousTime, lastStatus)) == scanned
    {
      var currentTime := filtered[i].instant;
      if currentTime > end {
        break;
      }
      if currentTime >= start {
        var interval := currentTime - previousTime;
        if filtered[i].status == Active {
          uptime := uptime + interval;
        } else {
          downtime := downtime + interval;
        }
        previousTime := currentTime;
        lastStatus := filtered[i].status;
      }
      assert filtered[i..][1..] == filtered[i + 1..];
      i := i + 1;
    }
    assert Acc(uptime, downtime, previousTime, lastStatus) == scanned;
    if previousTime < end {
      var lastInterval := end - previousTime;
      if lastStatus == Active {
        uptime := uptime + lastInterval;
      } else {
        downtime := downtime + lastInterval;
      }
    }
  }

  /** The scan ignores everything from the first sample after the window on, even
      samples inside the window that a misordered input places later. */
  lemma {:induction false} WalkStopsAtFirstLate(s: seq<Sample>, k: int, start: int, end: int, a: Acc)
    requires 0 <= k < |s| && s[k].instant > end
    ensures Walk(s, start, end, a) == Walk(s[..k], start, end, a)
  {
    if k > 0 {
      var a' := if s[0].instant >= start then Count(a, s[0]) else a;
      WalkStopsAtFirstLate(s[1..], k - 1, start, end, a');
      assert s[..k][1..] == s[1..][..k - 1];
    }
  }

  /** Samples before the window start neither add time nor change the carried
      status. */
  lemma {:induction false} WalkSkipsEarly(pre: seq<Sample>, s: seq<Sample>, start: int, end: int, a: Acc)
    requires start <= end
    requires forall i :: 0 <= i < |pre| ==> pre[i].instant < start
    ensures Walk(pre + s, start, end, a) == Walk(s, start, end, a)
  {
    if pre != [] {
      assert (pre + s)[0] == pre[0] && pre[0].instant < start;
      assert (pre + s)[1..] == pre[1..] + s;
      assert Walk(pre + s, start, end, a) == Walk(pre[1..] + s, start, end, a);
      WalkSkipsEarly(pre[1..], s, start, end, a);
    } else {
      assert pre + s == s;
    }
  }

  /** In any order, the counted intervals tile [a.previous, previous'] exactly,
      and the scan never moves attribution outside the window. */
  lemma {:induction false} WalkSum(s: seq<Sample>, start: int, end: int, a: Acc)
    requires start <= a.previous <= end
    ensures var b := Walk(s, start, end, a);
      start <= b.previous <= end &&
      (b.uptime - a.uptime) + (b.downtime - a.downtime) == b.previous - a.previous
  {
    if s != [] && s[0].instant <= end {
      if s[0].instant >= start {
        WalkSum(s[1..], start, end, Count(a, s[0]));
      } else {
        WalkSum(s[1..], start, end, a);
      }
    }
  }

  /** On ascending input every counted interval is non-negative, so neither total
      ever decreases. */
  lemma {:induction false} WalkBalance(s: seq<Sample>, start: int, end: int, a: Acc)
    requires Ascending(s)
    requires forall i :: 0 <= i < |s| && s[i].instant >= start ==> a.previous <= s[i].instant
    ensures var b := Walk(s, start, end, a);
      a.previous <= b.previous && a.uptime <= b.uptime && a.downtime <= b.downtime
  {
    if s != [] && s[0].instant <= end {
      if s[0].instant >= start {
        WalkBalance(s[1..], start, end, Count(a, s[0]));
      } else {
        WalkBalance(s[1..], start, end, a);
      }
    }
  }

  /** The sum law, for samples in any order: on a non-empty sample list and a
      window with start <= end, uptime and downtime together cover the window
      exactly. */
  lemma IntegrateSumsToWindow(s: seq<Sample>, start: int, end: int)
    requires s != [] && start <= end
    ensures var r := Integrate(s, start, end);
      r.uptime + r.downtime == end - start
  {
    WalkSum(s, start, end, Initial(start));
  }

  /** On a non-empty ascending sample list and a window with start <= end, uptime
      and downtime are moreover both non-negative. */
  lemma IntegrateCoversWindow(s: seq<Sample>, start: int, end: int)
    requires s != [] && Ascending(s) && start <= end
    ensures var r := Integrate(s, start, end);
      r.uptime >= 0 && r.downtime >= 0 && r.uptime + r.downtime == end - start
  {
    IntegrateSumsToWindow(s, start, end);
    WalkBalance(s, start, end, Initial(start));
  }

  /** If no sample falls inside the window because all precede it, the whole
      window counts as downtime: earlier samples do not seed the carried status. */
  lemma AllBeforeStartIsDowntime(s: seq<Sample>, start: int, end: int)
    requires s != [] && start <= end
    requires forall i :: 0 <= i < |s| ==> s[i].instant < start
    ensures Integrate(s, start, end) == Totals(0, end - start)
  {
    WalkSkipsEarly(s, [], start, end, Initial(start));
    assert s + [] == s;
  }

  /** The seconds credited to status `st` when the samples `s` are counted one
      after another from instant `from`: the gap ending at each sample is credited
      to that sample's own status. */
  function Credited(s: seq<Sample>, from: int, st: Status): int
    decreases |s|
  {
    if s == [] then 0
    else (if s[0].status == st then s[0].instant - from else 0) + Credited(s[1..], s[0].instant, st)
  }

  /** Scanning in-window samples credits every gap to the sample that ends it and
      leaves attribution at the last sample, carrying its status. */
  lemma {:induction false} WalkCreditsArrivingStatus(s: seq<Sample>, start: int, end: int, a: Acc)
    requires forall i :: 0 <= i < |s| ==> start <= s[i].instant <= end
    ensures Walk(s, start, end, a) ==
      if s == [] then a
      else Acc(a.uptime + Credited(s, a.previous, Active), a.downtime + Credited(s, a.previous, Inactive),
               s[|s| - 1].instant, s[|s| - 1].status)
  {
    if s != [] {
      var a' := Count(a, s[0]);
      assert forall i :: 0 <= i < |s| - 1 ==> s[1..][i] == s[i + 1];
      WalkCreditsArrivingStatus(s[1..], start, end, a');
      if |s| > 1 {
        assert s[1..][|s[1..]| - 1] == s[|s| - 1];
      }
    }
  }

  /** Gap attribution, for any number of in-window samples in any order: the gap
      from the window start to the first sample, and each gap between consecutive
      samples, goes to the status of the sample that ends it; only the tail after
      the last sample goes to the last sample's status. */
  lemma GapGoesToArrivingStatus(s: seq<Sample>, start: int, end: int)
    requires s != []
    requires forall i :: 0 <= i < |s| ==> start <= s[i].instant <= end
    ensures var r := Integrate(s, start, end);
      var last := s[|s| - 1];
      r.uptime == Credited(s, start, Active) + (if last.status == Active then end - last.instant else 0) &&
      r.downtime == Credited(s, start, Inactive) + (if last.status == Inactive then end - last.instant else 0)
  {
    WalkCreditsArrivingStatus(s, start, end, Initial(start));
  }
}
