/**
 * random_timestamp_from_range (app.py, lines 9-19): both dates become midnight
 * datetimes, the instant start + (end - start) * random.random() is taken, and the
 * result is formatted with '%Y-%m-%d %T'.
 *
 * Instants are whole seconds counted from the midnight that begins day 0, so the
 * midnight of a date is its ordinal times SecondsPerDay. random.random() returns
 * k / 2^53 for an integer 0 <= k < 2^53; the model takes that k as the draw.
 */
module Timestamps {
  import opened Errors
  import opened Calendar
  import opened Arith

  const SecondsPerDay: int := 86400
  const MicrosPerSecond: int := 1000000
  /** random.random() returns draw / DrawScale with 0 <= draw < DrawScale (2^53). */
  const DrawScale: int := 0x20_0000_0000_0000

  datatype DateTime = DateTime(date: Date, hour: int, minute: int, second: int)

  predicate ValidDateTime(t: DateTime) {
    ValidDate(t.date) && 0 <= t.hour < 24 && 0 <= t.minute < 60 && 0 <= t.second < 60
  }

  /** The instant of a datetime, in seconds. */
  function InstantOf(t: DateTime): int
    requires ValidDateTime(t)
  {
    Ordinal(t.date) * SecondsPerDay + t.hour * 3600 + t.minute * 60 + t.second
  }

  /** datetime.combine(d, datetime.min.time()): the instant whose datetime is d at 00:00:00. */
  function Midnight(d: Date): (s: int)
    requires ValidDate(d)
    ensures SecondsPerDay <= s < (MaxOrdinal + 1) * SecondsPerDay
    ensures DateTimeAt(s) == DateTime(d, 0, 0, 0)
  {
    DateTimeAtInstantOf(DateTime(d, 0, 0, 0));
    InstantOf(DateTime(d, 0, 0, 0))
  }

  /** The datetime that holds instant s (date.fromordinal plus the time of day). */
  function DateTimeAt(s: int): (t: DateTime)
    requires SecondsPerDay <= s < (MaxOrdinal + 1) * SecondsPerDay
    ensures ValidDateTime(t) && InstantOf(t) == s
  {
    var sod := s % SecondsPerDay;
    var mins := sod / 60;
    assert s == s / SecondsPerDay * SecondsPerDay + sod;
    assert sod == mins * 60 + sod % 60;
    assert mins == mins / 60 * 60 + mins % 60;
    DateTime(FromOrdinal(s / SecondsPerDay), mins / 60, mins % 60, sod % 60)
  }

  /** Reading the fields of an instant gives back the datetime it came from. */
  lemma DateTimeAtInstantOf(t: DateTime)
    requires ValidDateTime(t)
    ensures SecondsPerDay <= InstantOf(t) < (MaxOrdinal + 1) * SecondsPerDay
    ensures DateTimeAt(InstantOf(t)) == t
  {
    var s := InstantOf(t);
    var sod := t.hour * 3600 + t.minute * 60 + t.second;
    DivModUnique(s, SecondsPerDay, Ordinal(t.date), sod);
    DivModUnique(sod, 60, t.hour * 60 + t.minute, t.second);
    DivModUnique(t.hour * 60 + t.minute, 60, t.hour, t.minute);
    FromOrdinalOfOrdinal(t.date);
  }

  // ---------------------------------------------------------------------------
  // The interpolated instant

  /**
   * (end - start) * random.random() as a timedelta: the whole number of microseconds
   * nearest to spanMicros * draw / DrawScale, which lies between zero and the whole
   * span on whichever side the span lies.
   */
  function ScaledSpan(spanMicros: int, draw: int): (x: int)
    requires 0 <= draw < DrawScale
    ensures -DrawScale <= 2 * (spanMicros * draw - x * DrawScale) <= DrawScale
    ensures Between(x, 0, spanMicros)
  {
    if spanMicros >= 0 then
      MulMonotone(draw, DrawScale, spanMicros);
      assert 0 <= spanMicros * draw;
      RoundHalfEvenBetween(spanMicros * draw, DrawScale, 0, spanMicros);
      RoundHalfEven(spanMicros * draw, DrawScale)
    else
      MulMonotone(spanMicros, 0, draw);
      MulMonotone(spanMicros, 0, DrawScale - draw);
      assert spanMicros * DrawScale <= spanMicros * draw;
      RoundHalfEvenBetween(spanMicros * draw, DrawScale, spanMicros, 0);
      RoundHalfEven(spanMicros * draw, DrawScale)
  }

  /**
   * from + (to - from) * random.random() for instants in seconds: the datetime holds
   * microseconds, and strftime shows its whole seconds. The result is from moved by
   * the whole seconds of the scaled span, and lies between from and to, whichever
   * of them is the earlier.
   */
  function Interpolate(from: int, to: int, draw: int): (i: int)
    requires 0 <= draw < DrawScale
    ensures i == from + ScaledSpan((to - from) * MicrosPerSecond, draw) / MicrosPerSecond
    ensures Between(i, from, to)
  {
    var x := ScaledSpan((to - from) * MicrosPerSecond, draw);
    DivModUnique(from * MicrosPerSecond + x, MicrosPerSecond, from + x / MicrosPerSecond, x % MicrosPerSecond);
    if to >= from then
      DivBetween(x, MicrosPerSecond, 0, to - from);
      (from * MicrosPerSecond + x) / MicrosPerSecond
    else
      DivBetween(x, MicrosPerSecond, to - from, 0);
      (from * MicrosPerSecond + x) / MicrosPerSecond
  }

  /**
   * The instant random_timestamp_from_range formats. It lies between the midnights
   * of start and end, whichever of the two dates comes first (the source does not
   * reject a reversed range), so a one-day range always gives that day's midnight.
   */
  function InterpolatedInstant(start: Date, end: Date, draw: int): (s: int)
    requires ValidDate(start) && ValidDate(end) && 0 <= draw < DrawScale
    ensures Between(s, Midnight(start), Midnight(end))
  {
    Interpolate(Midnight(start), Midnight(end), draw)
  }

  predicate Between(x: int, a: int, b: int) {
    if a <= b then a <= x <= b else b <= x <= a
  }

  /** Over a positive span, the scaled span is the whole span exactly for draws within half a microsecond of it. */
  lemma ScaledSpanReachesSpan(spanMicros: int, draw: int)
    requires spanMicros > 0 && spanMicros % 2 == 0 && 0 <= draw < DrawScale
    ensures ScaledSpan(spanMicros, draw) == spanMicros <==> 2 * spanMicros * (DrawScale - draw) <= DrawScale
  {
    var e := spanMicros * (DrawScale - draw);
    MulMonotone(1, DrawScale - draw, spanMicros);
    assert spanMicros * draw == spanMicros * DrawScale - e;
    RoundHalfEvenBelowEven(spanMicros, DrawScale, e);
  }

  /** A larger draw never gives an earlier instant when from precedes to. */
  lemma InterpolateMonotone(from: int, to: int, draw1: int, draw2: int)
    requires from <= to && 0 <= draw1 <= draw2 < DrawScale
    ensures Interpolate(from, to, draw1) <= Interpolate(from, to, draw2)
  {
    var span := (to - from) * MicrosPerSecond;
    MulMonotone(draw1, draw2, span);
    RoundHalfEvenMonotone(span * draw1, span * draw2, DrawScale);
    var x1, x2 := ScaledSpan(span, draw1), ScaledSpan(span, draw2);
    assert x1 == x1 / MicrosPerSecond * MicrosPerSecond + x1 % MicrosPerSecond;
    assert x2 == x2 / MicrosPerSecond * MicrosPerSecond + x2 % MicrosPerSecond;
  }

  /** Below the top of a span of whole seconds, cutting to whole seconds stays below the top. */
  lemma WholeSecondsReachTop(x: int, seconds: int)
    requires seconds > 0 && 0 <= x <= seconds * MicrosPerSecond
    ensures x / MicrosPerSecond == seconds <==> x == seconds * MicrosPerSecond
  {
    DivBetween(x, MicrosPerSecond, 0, seconds);
    assert x == x / MicrosPerSecond * MicrosPerSecond + x % MicrosPerSecond;
  }

  /**
   * When from precedes to, the top is reached exactly by the draws within half a
   * microsecond of the full span (the scaled timedelta is rounded to whole microseconds).
   */
  lemma InterpolateReachesTop(from: int, to: int, draw: int)
    requires from < to && 0 <= draw < DrawScale
    ensures Interpolate(from, to, draw) == to
      <==> 2 * ((to - from) * MicrosPerSecond) * (DrawScale - draw) <= DrawScale
  {
    var seconds := to - from;
    var span := seconds * MicrosPerSecond;
    ScaledSpanReachesSpan(span, draw);
    WholeSecondsReachTop(ScaledSpan(span, draw), seconds);
  }

  /**
   * When start precedes end, the instant is end's midnight exactly for the draws
   * within half a microsecond of the full span, and earlier otherwise.
   */
  lemma InterpolatedReachesEnd(start: Date, end: Date, draw: int)
    requires ValidDate(start) && ValidDate(end) && Ordinal(start) < Ordinal(end)
    requires 0 <= draw < DrawScale
    ensures var span := (Midnight(end) - Midnight(start)) * MicrosPerSecond;
      InterpolatedInstant(start, end, draw) == Midnight(end) <==> 2 * span * (DrawScale - draw) <= DrawScale
  {
    InterpolateReachesTop(Midnight(start), Midnight(end), draw);
  }

  /**
   * The top of the window is reached in practice: over one day, the largest value
   * random.random() can return lands on the second date's midnight.
   */
  lemma EndMidnightReachable()
    ensures InterpolatedInstant(Date(2023, 1, 1), Date(2023, 1, 2), DrawScale - 1) == Midnight(Date(2023, 1, 2))
  {
    InterpolatedReachesEnd(Date(2023, 1, 1), Date(2023, 1, 2), DrawScale - 1);
  }

  /** The midnights of two dates lie a whole number of days apart. */
  lemma MidnightsApart(start: Date, end: Date)
    requires ValidDate(start) && ValidDate(end)
    ensures Midnight(end) - Midnight(start) == (Ordinal(end) - Ordinal(start)) * SecondsPerDay
  {
  }

  /**
   * Fewest days between the dates for which no draw reaches end's midnight: from
   * there on the span in microseconds exceeds 2^52, half of DrawScale.
   */
  const LongRangeDays: int := 52125

  /**
   * The window is closed at the top exactly for ranges shorter than LongRangeDays:
   * some draw lands on end's midnight if and only if the dates are fewer than
   * 52125 days apart.
   */
  lemma EndReachableIff(start: Date, end: Date)
    requires ValidDate(start) && ValidDate(end) && Ordinal(start) < Ordinal(end)
    ensures (exists draw :: 0 <= draw < DrawScale && InterpolatedInstant(start, end, draw) == Midnight(end))
      <==> Ordinal(end) - Ordinal(start) < LongRangeDays
  {
    var days := Ordinal(end) - Ordinal(start);
    MidnightsApart(start, end);
    var span := (Midnight(end) - Midnight(start)) * MicrosPerSecond;
    assert span == days * 86400000000;
    if days < LongRangeDays {
      InterpolatedReachesEnd(start, end, DrawScale - 1);
      assert InterpolatedInstant(start, end, DrawScale - 1) == Midnight(end);
    } else {
      forall draw | 0 <= draw < DrawScale
        ensures InterpolatedInstant(start, end, draw) != Midnight(end)
      {
        LongRangeNeverReachesEnd(start, end, draw);
      }
    }
  }

  /** Over LongRangeDays days or more, every instant falls strictly before end's midnight. */
  lemma LongRangeNeverReachesEnd(start: Date, end: Date, draw: int)
    requires ValidDate(start) && ValidDate(end) && Ordinal(end) - Ordinal(start) >= LongRangeDays
    requires 0 <= draw < DrawScale
    ensures InterpolatedInstant(start, end, draw) < Midnight(end)
  {
    MidnightsApart(start, end);
    var span := (Midnight(end) - Midnight(start)) * MicrosPerSecond;
    assert 2 * span > DrawScale;
    SpanPastHalf(span, draw);
    InterpolatedReachesEnd(start, end, draw);
  }

  /** A span over half of DrawScale misses the top for every draw. */
  lemma SpanPastHalf(span: int, draw: int)
    requires 2 * span > DrawScale && 0 <= draw < DrawScale
    ensures 2 * span * (DrawScale - draw) > DrawScale
  {
    MulMonotone(1, DrawScale - draw, 2 * span);
  }

  // ---------------------------------------------------------------------------
  // strftime('%Y-%m-%d %T'), %T being %H:%M:%S

  predicate IsDigit(c: char) {
    '0' <= c <= '9'
  }

  function Digit(n: int): (c: char)
    requires 0 <= n <= 9
    ensures IsDigit(c)
  {
    ('0' as int + n) as char
  }

  function DigitValue(c: char): (n: int)
    requires IsDigit(c)
    ensures 0 <= n <= 9 && Digit(n) == c
  {
    c as int - '0' as int
  }

  /** A two-digit zero-padded field (%m, %d, %H, %M, %S). */
  function Pad2(n: int): (s: string)
    requires 0 <= n <= 99
    ensures |s| == 2
  {
    [Digit(n / 10), Digit(n % 10)]
  }

  /** A four-digit zero-padded year (%Y). */
  function Pad4(n: int): (s: string)
    requires 0 <= n <= 9999
    ensures |s| == 4
  {
    Pad2(n / 100) + Pad2(n % 100)
  }

  function Number2(s: string): int
    requires |s| == 2 && IsDigit(s[0]) && IsDigit(s[1])
  {
    DigitValue(s[0]) * 10 + DigitValue(s[1])
  }

  function Number4(s: string): int
    requires |s| == 4 && forall k :: 0 <= k < 4 ==> IsDigit(s[k])
  {
    Number2(s[..2]) * 100 + Number2(s[2..])
  }

  /** The fields fit the widths of the format. */
  predicate Formattable(t: DateTime) {
    && 0 <= t.date.year <= 9999 && 0 <= t.date.month <= 99 && 0 <= t.date.day <= 99
    && 0 <= t.hour <= 99 && 0 <= t.minute <= 99 && 0 <= t.second <= 99
  }

  /**
   * datetime.strftime(t, '%Y-%m-%d %T'): text of the shape YYYY-MM-DD HH:MM:SS that
   * reads back as the same fields.
   */
  function FormatTimestamp(t: DateTime): (s: string)
    requires Formattable(t)
    ensures IsTimestampText(s)
    ensures ParseTimestamp(s) == Some(t)
  {
    Pad4Number4(t.date.year);
    Pad2Number2(t.date.month);
    Pad2Number2(t.date.day);
    Pad2Number2(t.hour);
    Pad2Number2(t.minute);
    Pad2Number2(t.second);
    FormatSlices(t);
    Pad4(t.date.year) + "-" + Pad2(t.date.month) + "-" + Pad2(t.date.day) + " "
      + Pad2(t.hour) + ":" + Pad2(t.minute) + ":" + Pad2(t.second)
  }

  /** The shape YYYY-MM-DD HH:MM:SS: nineteen characters, digits except the five separators. */
  predicate IsTimestampText(s: string) {
    && |s| == 19
    && s[4] == '-' && s[7] == '-' && s[10] == ' ' && s[13] == ':' && s[16] == ':'
    && forall k :: 0 <= k < 19 && k !in {4, 7, 10, 13, 16} ==> IsDigit(s[k])
  }

  /** Reads a timestamp text back into its fields. */
  function ParseTimestamp(s: string): (r: Option<DateTime>)
    ensures r.Some? <==> IsTimestampText(s)
  {
    if IsTimestampText(s) then
      Some(DateTime(Date(Number4(s[0..4]), Number2(s[5..7]), Number2(s[8..10])),
                    Number2(s[11..13]), Number2(s[14..16]), Number2(s[17..19])))
    else None
  }

  lemma Pad2Number2(n: int)
    requires 0 <= n <= 99
    ensures IsDigit(Pad2(n)[0]) && IsDigit(Pad2(n)[1]) && Number2(Pad2(n)) == n
  {
  }

  lemma Pad4Number4(n: int)
    requires 0 <= n <= 9999
    ensures forall k :: 0 <= k < 4 ==> IsDigit(Pad4(n)[k])
    ensures Number4(Pad4(n)) == n
  {
    var s := Pad4(n);
    Pad2Number2(n / 100);
    Pad2Number2(n % 100);
    assert s[..2] == Pad2(n / 100) && s[2..] == Pad2(n % 100);
  }

  /** Where each field sits in the formatted text. */
  lemma FormatSlices(t: DateTime)
    requires Formattable(t)
    ensures var s := Pad4(t.date.year) + "-" + Pad2(t.date.month) + "-" + Pad2(t.date.day) + " "
        + Pad2(t.hour) + ":" + Pad2(t.minute) + ":" + Pad2(t.second);
      && |s| == 19
      && s[4] == '-' && s[7] == '-' && s[10] == ' ' && s[13] == ':' && s[16] == ':'
      && s[0..4] == Pad4(t.date.year) && s[5..7] == Pad2(t.date.month) && s[8..10] == Pad2(t.date.day)
      && s[11..13] == Pad2(t.hour) && s[14..16] == Pad2(t.minute) && s[17..19] == Pad2(t.second)
  {
    var head := Pad4(t.date.year) + "-" + Pad2(t.date.month) + "-" + Pad2(t.date.day);
    var tail := Pad2(t.hour) + ":" + Pad2(t.minute) + ":" + Pad2(t.second);
    var s := head + " " + tail;
    assert s[0..10] == head && s[11..19] == tail;
    assert head[0..4] == Pad4(t.date.year) && head[5..7] == Pad2(t.date.month) && head[8..10] == Pad2(t.date.day);
    assert tail[0..2] == Pad2(t.hour) && tail[3..5] == Pad2(t.minute) && tail[6..8] == Pad2(t.second);
  }

  lemma Number2Pad2(s: string)
    requires |s| == 2 && IsDigit(s[0]) && IsDigit(s[1])
    ensures 0 <= Number2(s) <= 99 && Pad2(Number2(s)) == s
  {
  }

  lemma Number4Pad4(s: string)
    requires |s| == 4 && forall k :: 0 <= k < 4 ==> IsDigit(s[k])
    ensures 0 <= Number4(s) <= 9999 && Pad4(Number4(s)) == s
  {
    var hi, lo := s[..2], s[2..];
    Number2Pad2(hi);
    Number2Pad2(lo);
    DivModUnique(Number4(s), 100, Number2(hi), Number2(lo));
    assert s == hi + lo;
  }

  /** Every text of the timestamp shape is the formatting of the fields read from it. */
  lemma FormatParseTimestamp(s: string)
    requires IsTimestampText(s)
    ensures Formattable(ParseTimestamp(s).value)
    ensures FormatTimestamp(ParseTimestamp(s).value) == s
  {
    assert forall k :: 0 <= k < 4 ==> IsDigit(s[0..4][k]);
    Number4Pad4(s[0..4]);
    Number2Pad2(s[5..7]);
    Number2Pad2(s[8..10]);
    Number2Pad2(s[11..13]);
    Number2Pad2(s[14..16]);
    Number2Pad2(s[17..19]);
    assert s == s[0..4] + "-" + s[5..7] + "-" + s[8..10] + " " + s[11..13] + ":" + s[14..16] + ":" + s[17..19];
  }

  // ---------------------------------------------------------------------------
  // The whole function

  /**
   * random_timestamp_from_range(date_range) with random.random() == draw / DrawScale.
   * Unpacking a range that does not hold exactly two dates raises ValueError.
   */
  function RandomTimestamp(dateRange: seq<Date>, draw: int): (r: Result<string>)
    requires forall k :: 0 <= k < |dateRange| ==> ValidDate(dateRange[k])
    requires 0 <= draw < DrawScale
    ensures r.Err? <==> |dateRange| != 2
    ensures r.Err? ==> r.error == UnpackMismatch
    ensures r.Ok? ==> IsTimestampText(r.value)
    ensures r.Ok? ==> var t := ParseTimestamp(r.value).value;
      && ValidDateTime(t)
      && InstantOf(t) == InterpolatedInstant(dateRange[0], dateRange[1], draw)
      && Between(InstantOf(t), Midnight(dateRange[0]), Midnight(dateRange[1]))
  {
    if |dateRange| != 2 then Err(UnpackMismatch)
    else
      var start, end := dateRange[0], dateRange[1];
      var t := DateTimeAt(InterpolatedInstant(start, end, draw));
      Ok(FormatTimestamp(t))
  }

  /** Over the one-day range 2023-01-01 to 2023-01-01 every draw gives the text of that midnight. */
  lemma SameDayTimestampText(draw: int)
    requires 0 <= draw < DrawScale
    ensures RandomTimestamp([Date(2023, 1, 1), Date(2023, 1, 1)], draw) == Ok("2023-01-01 00:00:00")
  {
    FormatNewYear2023();
  }

  lemma FormatNewYear2023()
    ensures FormatTimestamp(DateTime(Date(2023, 1, 1), 0, 0, 0)) == "2023-01-01 00:00:00"
  {
    assert Pad4(2023) == "2023";
    assert Pad2(1) == "01" && Pad2(0) == "00";
  }
}
