/** Timestamp text helpers: the calendar-day and whole-second truncations of
    an ISO-like timestamp `YYYY-MM-DD hh:mm:ss...`, written with Python's
    clamping slices so that short or empty strings behave as in the source. */
module Text {
  import opened Basics

  /** The calendar day of a timestamp, `YYYY-MM-DD`; the empty string stays
      empty. */
  function TimestampToDay(field: string): (r: string)
    ensures field == "" ==> r == ""
    ensures |field| >= 10 ==> |r| == 10 && r[4] == '-' && r[7] == '-'
    ensures |field| >= 10 ==> r[..4] == field[..4] && r[5..7] == field[5..7] && r[8..] == field[8..10]
  {
    if field == "" then ""
    else Slice(field, 0, 4) + "-" + Slice(field, 5, 7) + "-" + Slice(field, 8, 10)
  }

  /** The timestamp truncated to whole seconds, `YYYY-MM-DD hh:mm:ss`. Unlike
      `TimestampToDay` there is no special case for the empty string. */
  function DatetimeToSeconds(dt: string): (r: string)
    ensures |dt| >= 19 ==> |r| == 19
    ensures |dt| >= 19 ==> r == dt[..4] + "-" + dt[5..7] + "-" + dt[8..10] + " " + dt[11..13] + ":" + dt[14..16] + ":" + dt[17..19]
  {
    Slice(dt, 0, 4) + "-" + Slice(dt, 5, 7) + "-" + Slice(dt, 8, 10) + " "
      + Slice(dt, 11, 13) + ":" + Slice(dt, 14, 16) + ":" + Slice(dt, 17, 19)
  }

  /** The `(year, month, day)` slice triple the day-merge step compares. */
  datatype DateKey = DateKey(year: string, month: string, day: string)

  function DayOf(s: string): DateKey
  {
    DateKey(Slice(s, 0, 4), Slice(s, 5, 7), Slice(s, 8, 10))
  }

  /** A full timestamp's day is a fixed point of `TimestampToDay`. */
  lemma TimestampToDayIdempotent(field: string)
    requires |field| >= 10
    ensures TimestampToDay(TimestampToDay(field)) == TimestampToDay(field)
  {
    var d := TimestampToDay(field);
    var dd := TimestampToDay(d);
    assert d[..4] == d[0..4];
    assert d[5..7] == d[5..7];
    assert d[8..10] == d[8..];
    assert dd[..4] == d[..4] && dd[5..7] == d[5..7] && dd[8..] == d[8..];
    assert forall k :: 0 <= k < 10 ==> dd[k] == d[k] by {
      forall k | 0 <= k < 10 ensures dd[k] == d[k] {
        if k < 4 {
          assert dd[k] == dd[..4][k];
          assert d[k] == d[..4][k];
        } else if k == 4 || k == 7 {
        } else if k < 7 {
          assert dd[k] == dd[5..7][k - 5];
          assert d[k] == d[5..7][k - 5];
        } else {
          assert dd[k] == dd[8..][k - 8];
          assert d[k] == d[8..][k - 8];
        }
      }
    }
  }

  /** A full timestamp's whole-second form is a fixed point as well. */
  lemma DatetimeToSecondsIdempotent(dt: string)
    requires |dt| >= 19
    ensures DatetimeToSeconds(DatetimeToSeconds(dt)) == DatetimeToSeconds(dt)
  {
    var d := DatetimeToSeconds(dt);
    var dd := DatetimeToSeconds(d);
    assert forall k :: 0 <= k < 19 ==> dd[k] == d[k] by {
      forall k | 0 <= k < 19 ensures dd[k] == d[k] {
        if k < 4 {
          assert dd[k] == dd[..4][k] && d[k] == d[..4][k];
        } else if k == 4 || k == 7 || k == 10 || k == 13 || k == 16 {
        } else if k < 7 {
          assert dd[k] == dd[5..7][k - 5] && d[k] == d[5..7][k - 5];
        } else if k < 10 {
          assert dd[k] == dd[8..10][k - 8] && d[k] == d[8..10][k - 8];
        } else if k < 13 {
          assert dd[k] == dd[11..13][k - 11] && d[k] == d[11..13][k - 11];
        } else if k < 16 {
          assert dd[k] == dd[14..16][k - 14] && d[k] == d[14..16][k - 14];
        } else {
          assert dd[k] == dd[17..][k - 17] && d[k] == d[17..][k - 17];
        }
      }
    }
  }

  /** The day of a full timestamp is the first ten characters of its
      whole-second form. */
  lemma DayIsSecondsPrefix(dt: string)
    requires |dt| >= 19
    ensures DatetimeToSeconds(dt)[..10] == TimestampToDay(dt)
  {
    var s := DatetimeToSeconds(dt);
    var d := TimestampToDay(dt);
    assert forall k :: 0 <= k < 10 ==> s[k] == d[k] by {
      forall k | 0 <= k < 10 ensures s[k] == d[k] {
        if k < 4 {
          assert s[k] == s[..4][k] && d[k] == d[..4][k];
        } else if k == 4 || k == 7 {
        } else if k < 7 {
          assert s[k] == s[5..7][k - 5] && d[k] == d[5..7][k - 5];
        } else {
          assert s[k] == s[8..10][k - 8] && d[k] == d[8..][k - 8];
        }
      }
    }
  }

  /** For full timestamps, the merge step's slice triple and `TimestampToDay`
      draw the same day boundaries. */
  lemma SameDayIffSameDayText(a: string, b: string)
    requires |a| >= 10 && |b| >= 10
    ensures DayOf(a) == DayOf(b) <==> TimestampToDay(a) == TimestampToDay(b)
  {
    var da, db := TimestampToDay(a), TimestampToDay(b);
    if TimestampToDay(a) == TimestampToDay(b) {
      assert a[..4] == da[..4] == db[..4] == b[..4];
      assert a[5..7] == da[5..7] == db[5..7] == b[5..7];
      assert a[8..10] == da[8..] == db[8..] == b[8..10];
    }
  }
}
