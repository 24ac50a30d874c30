/** Time-of-day values, as Python's `datetime.time` holds them at whole-second
    precision, and the conversion of a MySQL TIME column (a duration in
    seconds) into one (`convert_timedelta_to_time` in app/main.py and,
    identically, in app/utils.py). */
module TimeOfDay {
  import opened Wrappers

  const SecondsPerMinute: int := 60
  const SecondsPerHour: int := 3600
  const SecondsPerDay: int := 86400

  /** A wall-clock time of day, without a date. */
  datatype Time = Time(hour: int, minute: int, second: int)
  {
    /** The range `datetime.time` accepts: any other value makes its constructor raise. */
    predicate Valid() {
      0 <= hour < 24 && 0 <= minute < 60 && 0 <= second < 60
    }

    /** Seconds elapsed since midnight. */
    function ToSeconds(): int {
      hour * SecondsPerHour + minute * SecondsPerMinute + second
    }
  }

  /** A local civil time as the timezone conversion yields it: the weekday
      (Monday is 0, as Python's `weekday()` counts) and the time of day. */
  datatype LocalTime = LocalTime(weekday: int, time: Time)

  /** Python compares `time` values field by field, hour first. */
  predicate AtOrBefore(a: Time, b: Time) {
    a.hour < b.hour ||
    (a.hour == b.hour && (a.minute < b.minute || (a.minute == b.minute && a.second <= b.second)))
  }

  /** Splits a whole number of seconds into hours, minutes and seconds and builds a
      `time` from them. Python's `//` and `%` floor, which for the positive divisors
      used here is what Dafny's Euclidean `/` and `%` compute; the minutes and seconds
      are therefore always in range, and the construction fails (None) exactly when
      the hour count is outside 0..23, i.e. for a negative duration or one of a day
      or more. */
  function ConvertTimedeltaToTime(totalSeconds: int): (r: Option<Time>)
    ensures r.Some? <==> 0 <= totalSeconds < SecondsPerDay
    ensures r.Some? ==> r.value.Valid() && r.value.ToSeconds() == totalSeconds
  {
    var hours := totalSeconds / SecondsPerHour;
    var minutes := (totalSeconds % SecondsPerHour) / SecondsPerMinute;
    var seconds := totalSeconds % SecondsPerMinute;
    assert totalSeconds == hours * SecondsPerHour + minutes * SecondsPerMinute + seconds by {
      DivModSplit(totalSeconds);
    }
    if 0 <= hours < 24 then Some(Time(hours, minutes, seconds)) else None
  }

  /** The two-level split `s / 3600`, `(s % 3600) / 60`, `s % 60` recombines to `s`. */
  lemma DivModSplit(s: int)
    ensures s == (s / 3600) * 3600 + ((s % 3600) / 60) * 60 + s % 60
    ensures 0 <= (s % 3600) / 60 < 60 && 0 <= s % 60 < 60
    ensures 0 <= s < 86400 <==> 0 <= s / 3600 < 24
  {
    var h, rem := s / 3600, s % 3600;
    var m, sec := rem / 60, rem % 60;
    assert s == h * 3600 + rem && 0 <= rem < 3600;
    assert rem == m * 60 + sec && 0 <= sec < 60;
    assert s % 60 == sec by {
      assert s == (h * 60 + m) * 60 + sec;
    }
  }

  /** Converting a valid time to its seconds count and back gives the same time:
      the conversion is a lossless round trip. */
  lemma {:induction false} ConvertRoundTrip(t: Time)
    requires t.Valid()
    ensures ConvertTimedeltaToTime(t.ToSeconds()) == Some(t)
  {
    var s := t.ToSeconds();
    var r := ConvertTimedeltaToTime(s);
    assert 0 <= s < SecondsPerDay by {
      assert t.hour * 3600 <= 23 * 3600;
    }
    var u := r.value;
    UniqueSplit(t, u);
  }

  /** Two valid times with the same seconds count are the same time. */
  lemma UniqueSplit(a: Time, b: Time)
    requires a.Valid() && b.Valid()
    requires a.ToSeconds() == b.ToSeconds()
    ensures a == b
  {
    AtOrBeforeIffSeconds(a, b);
    AtOrBeforeIffSeconds(b, a);
  }

  /** For valid times, Python's field-by-field comparison agrees with comparing
      seconds since midnight, so a business-hours window [start, end] of `time`
      values is the interval of seconds [start.ToSeconds(), end.ToSeconds()]. */
  lemma AtOrBeforeIffSeconds(a: Time, b: Time)
    requires a.Valid() && b.Valid()
    ensures AtOrBefore(a, b) <==> a.ToSeconds() <= b.ToSeconds()
  {
    if a.hour < b.hour {
      assert a.ToSeconds() < (a.hour + 1) * 3600 <= b.hour * 3600 <= b.ToSeconds();
    } else if b.hour < a.hour {
      assert b.ToSeconds() < (b.hour + 1) * 3600 <= a.hour * 3600 <= a.ToSeconds();
    }
  }
}
