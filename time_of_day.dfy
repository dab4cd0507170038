/** Times of day and calendar days as the booking engine handles them.

    The API carries a time of day as a zero-padded 24-hour `HH:MM` string and
    a date as an ISO `YYYY-MM-DD` string. Here a time of day is such a string
    (a `Clock`), and a date is its day ordinal (the number Python's
    `date.toordinal()` gives). An instant is a count of minutes since the
    start of day 0, so `ToInstant` plays the part of `to_local_dt`. */
module TimeOfDay {

  const MINUTES_PER_DAY := 1440

  predicate IsDigit(c: char) { '0' <= c <= '9' }

  function DigitValue(c: char): (d: nat)
    requires IsDigit(c)
    ensures d < 10
  {
    c as int - '0' as int
  }

  function DigitChar(d: nat): (c: char)
    requires d < 10
    ensures IsDigit(c) && DigitValue(c) == d
  {
    ('0' as int + d) as char
  }

  /** The two-digit decimal number written at s[i], s[i + 1]. */
  function TwoDigits(s: string, i: nat): nat
    requires i + 1 < |s| && IsDigit(s[i]) && IsDigit(s[i + 1])
  {
    10 * DigitValue(s[i]) + DigitValue(s[i + 1])
  }

  /** A zero-padded `HH:MM` string that `datetime(y, m, d, hh, mm)` accepts. */
  predicate IsClock(s: string)
  {
    && |s| == 5
    && IsDigit(s[0]) && IsDigit(s[1]) && s[2] == ':' && IsDigit(s[3]) && IsDigit(s[4])
    && TwoDigits(s, 0) < 24
    && TwoDigits(s, 3) < 60
  }

  type Clock = s: string | IsClock(s) witness "00:00"

  function Hour(t: Clock): nat { TwoDigits(t, 0) }

  function Minute(t: Clock): nat { TwoDigits(t, 3) }

  /** The local `minutes` helper of the availability endpoint: `h * 60 + m`. */
  function Minutes(t: Clock): (m: nat)
    ensures m < MINUTES_PER_DAY
  {
    Hour(t) * 60 + Minute(t)
  }

  /** Renders a minute of the day back as a zero-padded `HH:MM` string. */
  function Format(m: nat): (t: Clock)
    requires m < MINUTES_PER_DAY
    ensures Minutes(t) == m
  {
    var h, mm := m / 60, m % 60;
    [DigitChar(h / 10), DigitChar(h % 10), ':', DigitChar(mm / 10), DigitChar(mm % 10)]
  }

  lemma DigitRoundTrip(c: char)
    requires IsDigit(c)
    ensures DigitChar(DigitValue(c)) == c
  {
  }

  /** Parsing and rendering are inverse: every valid `HH:MM` string is the
      rendering of its own minute count. */
  lemma FormatMinutes(t: Clock)
    ensures Format(Minutes(t)) == t
  {
    var f := Format(Minutes(t));
    assert Minutes(t) / 60 == Hour(t) && Minutes(t) % 60 == Minute(t);
    assert Hour(t) / 10 == DigitValue(t[0]) && Hour(t) % 10 == DigitValue(t[1]);
    assert Minute(t) / 10 == DigitValue(t[3]) && Minute(t) % 10 == DigitValue(t[4]);
    DigitRoundTrip(t[0]);
    DigitRoundTrip(t[1]);
    DigitRoundTrip(t[3]);
    DigitRoundTrip(t[4]);
    assert f[0] == t[0] && f[1] == t[1] && f[2] == t[2] && f[3] == t[3] && f[4] == t[4];
  }

  /** Minute counts of distinct valid strings are distinct. */
  lemma MinutesInjective(a: Clock, b: Clock)
    requires Minutes(a) == Minutes(b)
    ensures a == b
  {
    FormatMinutes(a);
    FormatMinutes(b);
  }

  /** Python's `<` on `str`: lexicographic comparison by code point, where a
      proper prefix is smaller. */
  predicate StrLess(a: string, b: string): (r: bool)
    decreases |a|
    ensures r ==> a != b
  {
    if |b| == 0 then false
    else if |a| == 0 then true
    else if a[0] != b[0] then a[0] < b[0]
    else StrLess(a[1..], b[1..])
  }

  /** On zero-padded `HH:MM` strings, string order is chronological order. */
  lemma StrLessIsMinuteLess(a: Clock, b: Clock)
    ensures StrLess(a, b) <==> Minutes(a) < Minutes(b)
  {
    var a1, b1 := a[1..], b[1..];
    var a2, b2 := a1[1..], b1[1..];
    var a3, b3 := a2[1..], b2[1..];
    var a4, b4 := a3[1..], b3[1..];
    assert a4[1..] == [] && b4[1..] == [];
    assert StrLess(a4[1..], b4[1..]) == false;
    assert a1[0] == a[1] && a2[0] == a[2] && a3[0] == a[3] && a4[0] == a[4];
    assert b1[0] == b[1] && b2[0] == b[2] && b3[0] == b[3] && b4[0] == b[4];
    assert StrLess(a, b) == if a[0] != b[0] then a[0] < b[0] else StrLess(a1, b1);
    assert StrLess(a1, b1) == if a[1] != b[1] then a[1] < b[1] else StrLess(a2, b2);
    assert StrLess(a2, b2) == StrLess(a3, b3);
    assert StrLess(a3, b3) == if a[3] != b[3] then a[3] < b[3] else StrLess(a4, b4);
    assert StrLess(a4, b4) == (a[4] < b[4]);
  }

  /** A calendar date, as its day ordinal (`date.toordinal()`). */
  type Day = int

  /** A point in time: minutes since the start of day 0. */
  type Instant = int

  /** `to_local_dt(date, time)`: the instant at which `time` falls on `date`. */
  function ToInstant(d: Day, t: Clock): (i: Instant)
    ensures d * MINUTES_PER_DAY <= i < (d + 1) * MINUTES_PER_DAY
  {
    d * MINUTES_PER_DAY + Minutes(t)
  }

  function DayOf(i: Instant): Day { i / MINUTES_PER_DAY }

  function MinuteOfDay(i: Instant): (m: nat)
    ensures m < MINUTES_PER_DAY
  {
    i % MINUTES_PER_DAY
  }

  /** An instant built from a date and a time gives back that date and time. */
  lemma InstantRoundTrip(d: Day, t: Clock)
    ensures DayOf(ToInstant(d, t)) == d
    ensures Format(MinuteOfDay(ToInstant(d, t))) == t
  {
    SplitInstant(d, Minutes(t));
    FormatMinutes(t);
  }

  /** Euclidean division by the length of a day splits an instant into its day and minute. */
  lemma SplitInstant(d: Day, m: int)
    requires 0 <= m < MINUTES_PER_DAY
    ensures (d * MINUTES_PER_DAY + m) / MINUTES_PER_DAY == d
    ensures (d * MINUTES_PER_DAY + m) % MINUTES_PER_DAY == m
  {
    var i := d * MINUTES_PER_DAY + m;
    var q, r := i / MINUTES_PER_DAY, i % MINUTES_PER_DAY;
    assert (q - d) * MINUTES_PER_DAY == m - r;
  }

  /** Instants order as `datetime` values do: by date, then by time of day. */
  lemma InstantOrder(d1: Day, t1: Clock, d2: Day, t2: Clock)
    ensures ToInstant(d1, t1) < ToInstant(d2, t2) <==> d1 < d2 || (d1 == d2 && Minutes(t1) < Minutes(t2))
  {
    if d1 < d2 {
      assert d1 * MINUTES_PER_DAY + MINUTES_PER_DAY <= d2 * MINUTES_PER_DAY;
    } else if d1 > d2 {
      assert d2 * MINUTES_PER_DAY + MINUTES_PER_DAY <= d1 * MINUTES_PER_DAY;
    }
  }

  /** The fixed date `overlaps` pins both intervals to: 2000-01-01. */
  const REFERENCE_DAY: Day := 730120

  /** `overlaps(s1, e1, s2, e2)`: the half-open intervals [s1, e1) and
      [s2, e2), both placed on the reference date, intersect. */
  function Overlaps(s1: Clock, e1: Clock, s2: Clock, e2: Clock): (r: bool)
    ensures r <==> Minutes(s1) < Minutes(e2) && Minutes(s2) < Minutes(e1)
  {
    ToInstant(REFERENCE_DAY, s1) < ToInstant(REFERENCE_DAY, e2)
    && ToInstant(REFERENCE_DAY, s2) < ToInstant(REFERENCE_DAY, e1)
  }

  /** Minute m of the day lies in the half-open interval [s, e). */
  predicate Within(s: Clock, e: Clock, m: int)
  {
    Minutes(s) <= m < Minutes(e)
  }

  /** For non-empty intervals, the overlap test holds exactly when some minute
      lies in both. */
  lemma OverlapsIffSharedMinute(s1: Clock, e1: Clock, s2: Clock, e2: Clock)
    requires Minutes(s1) < Minutes(e1) && Minutes(s2) < Minutes(e2)
    ensures Overlaps(s1, e1, s2, e2) <==> exists m :: Within(s1, e1, m) && Within(s2, e2, m)
  {
    if Overlaps(s1, e1, s2, e2) {
      var m := if Minutes(s1) < Minutes(s2) then Minutes(s2) else Minutes(s1);
      assert Within(s1, e1, m) && Within(s2, e2, m);
    }
  }

  lemma OverlapsSymmetric(s1: Clock, e1: Clock, s2: Clock, e2: Clock)
    ensures Overlaps(s1, e1, s2, e2) == Overlaps(s2, e2, s1, e1)
  {
  }

  /** Intervals that only touch, one ending where the other starts, do not overlap. */
  lemma AdjacentDoNotOverlap(s1: Clock, e1: Clock, s2: Clock, e2: Clock)
    requires e1 == s2
    ensures !Overlaps(s1, e1, s2, e2)
  {
  }
}
