/** Naive Python `datetime` values as the booking form produces them, the strict text format
    `%Y-%m-%dT%H:%M`, and the one-hour booking block. */
module DateTime {
  import opened Strings

  /** A `datetime` with seconds and microseconds zero, which is all `strptime` can produce
      from the `%Y-%m-%dT%H:%M` pattern. */
  datatype Timestamp = Timestamp(year: int, month: int, day: int, hour: int, minute: int)

  /** `datetime.MINYEAR` and `datetime.MAXYEAR`. */
  const MinYear := 1
  const MaxYear := 9999

  predicate IsLeapYear(y: int) {
    y % 4 == 0 && (y % 100 != 0 || y % 400 == 0)
  }

  function DaysInMonth(y: int, m: int): int
    requires 1 <= m <= 12
  {
    if m == 2 then (if IsLeapYear(y) then 29 else 28)
    else if m == 4 || m == 6 || m == 9 || m == 11 then 30
    else 31
  }

  /** The range checks the `datetime` constructor performs. */
  predicate Valid(t: Timestamp) {
    && MinYear <= t.year <= MaxYear
    && 1 <= t.month <= 12
    && 1 <= t.day <= DaysInMonth(t.year, t.month)
    && 0 <= t.hour <= 23
    && 0 <= t.minute <= 59
  }

  /** Strict order of the fields, most significant first. */
  predicate Before(a: Timestamp, b: Timestamp) {
    || a.year < b.year
    || (a.year == b.year && a.month < b.month)
    || (a.year == b.year && a.month == b.month && a.day < b.day)
    || (a.year == b.year && a.month == b.month && a.day == b.day && a.hour < b.hour)
    || (a.year == b.year && a.month == b.month && a.day == b.day && a.hour == b.hour && a.minute < b.minute)
  }

  /** `Before` is transitive, stated the way round the sorting proof uses it. */
  lemma BeforeTransitive(a: Timestamp, b: Timestamp, c: Timestamp)
    requires Before(a, b) && !Before(a, c)
    ensures !Before(b, c)
  {
  }

  predicate AtOrBefore(a: Timestamp, b: Timestamp) {
    a == b || Before(a, b)
  }

  /** The two timestamps lie in the same clock hour of the same day. */
  predicate SameHour(a: Timestamp, b: Timestamp) {
    a.year == b.year && a.month == b.month && a.day == b.day && a.hour == b.hour
  }

  // ---------------------------------------------------------------------------
  // A reference count of minutes, after Python's own day arithmetic

  function DaysInYear(y: int): int {
    if IsLeapYear(y) then 366 else 365
  }

  /** Days from 0001-01-01 to the first day of year `y` (`_days_before_year`). */
  function DaysBeforeYear(y: int): int
    requires y >= 1
  {
    var n := y - 1;
    n * 365 + n / 4 - n / 100 + n / 400
  }

  /** Days from the first of the year to the first of month `m`, for `m` up to 13
      (`_days_before_month`, extended by the whole year). */
  function DaysBeforeMonth(y: int, m: int): int
    requires 1 <= m <= 13
  {
    [0, 31, 59, 90, 120, 151, 181, 212, 243, 273, 304, 334, 365][m - 1]
      + (if m > 2 && IsLeapYear(y) then 1 else 0)
  }

  /** Days from 0001-01-01 to the day of `t` (`_ymd2ord` less one). */
  function DayIndex(t: Timestamp): int
    requires Valid(t)
  {
    DaysBeforeYear(t.year) + DaysBeforeMonth(t.year, t.month) + t.day - 1
  }

  /** Minutes from 0001-01-01T00:00 to `t`. */
  function Minutes(t: Timestamp): int
    requires Valid(t)
  {
    (DayIndex(t) * 24 + t.hour) * 60 + t.minute
  }

  lemma DaysBeforeNextYear(y: int)
    requires y >= 1
    ensures DaysBeforeYear(y + 1) == DaysBeforeYear(y) + DaysInYear(y)
  {
    var n := y - 1;
    assert (n + 1) / 4 == n / 4 + (if y % 4 == 0 then 1 else 0);
    assert (n + 1) / 100 == n / 100 + (if y % 100 == 0 then 1 else 0);
    assert (n + 1) / 400 == n / 400 + (if y % 400 == 0 then 1 else 0);
  }

  lemma {:induction false} DaysBeforeYearGrows(a: int, b: int)
    requires 1 <= a < b
    ensures DaysBeforeYear(a) + DaysInYear(a) <= DaysBeforeYear(b)
    decreases b - a
  {
    DaysBeforeNextYear(a);
    if a + 1 < b {
      DaysBeforeYearGrows(a + 1, b);
    }
  }

  lemma DaysBeforeNextMonth(y: int, m: int)
    requires 1 <= m <= 12
    ensures DaysBeforeMonth(y, m + 1) == DaysBeforeMonth(y, m) + DaysInMonth(y, m)
  {
  }

  /** A valid timestamp's day lies within its year. */
  lemma DayWithinYear(t: Timestamp)
    requires Valid(t)
    ensures DaysBeforeYear(t.year) <= DayIndex(t) < DaysBeforeYear(t.year) + DaysInYear(t.year)
  {
    DaysBeforeNextMonth(t.year, t.month);
    assert DaysBeforeMonth(t.year, t.month) + DaysInMonth(t.year, t.month) <= DaysInYear(t.year);
  }

  /** An earlier calendar day has a smaller day index. */
  lemma DayIndexGrows(a: Timestamp, b: Timestamp)
    requires Valid(a) && Valid(b)
    requires a.year < b.year || (a.year == b.year && (a.month < b.month || (a.month == b.month && a.day < b.day)))
    ensures DayIndex(a) < DayIndex(b)
  {
    DayWithinYear(a);
    DayWithinYear(b);
    if a.year < b.year {
      DaysBeforeYearGrows(a.year, b.year);
    } else if a.month < b.month {
      DaysBeforeNextMonth(a.year, a.month);
      assert DaysBeforeMonth(a.year, a.month + 1) <= DaysBeforeMonth(a.year, b.month);
    }
  }

  /** The field order is the chronological order the database uses to compare `DateTime`
      columns. */
  lemma BeforeIsChronological(a: Timestamp, b: Timestamp)
    requires Valid(a) && Valid(b)
    ensures Before(a, b) <==> Minutes(a) < Minutes(b)
    ensures a == b <==> Minutes(a) == Minutes(b)
  {
    if (a.year, a.month, a.day) != (b.year, b.month, b.day) {
      if a.year < b.year || (a.year == b.year && (a.month < b.month || (a.month == b.month && a.day < b.day))) {
        DayIndexGrows(a, b);
      } else {
        DayIndexGrows(b, a);
      }
    }
  }

  // ---------------------------------------------------------------------------
  // The booking block

  /** `t.replace(minute=0, second=0, microsecond=0)`. */
  function BlockStart(t: Timestamp): (r: Timestamp)
    ensures SameHour(r, t) && r.minute == 0
    ensures Valid(t) ==> Valid(r) && AtOrBefore(r, t)
    ensures forall c :: Valid(c) && SameHour(c, t) ==> AtOrBefore(r, c)
  {
    t.(minute := 0)
  }

  /** `t + timedelta(hours=1)`; `None` where Python raises `OverflowError` because the sum
      would pass 9999-12-31. */
  function AddHour(t: Timestamp): (r: Option<Timestamp>)
    requires Valid(t)
    ensures r.Some? ==> Valid(r.value) && Before(t, r.value) && r.value.minute == t.minute
    ensures r.None? <==> t.year == MaxYear && t.month == 12 && t.day == 31 && t.hour == 23
  {
    if t.hour < 23 then Some(t.(hour := t.hour + 1))
    else if t.day < DaysInMonth(t.year, t.month) then Some(t.(day := t.day + 1, hour := 0))
    else if t.month < 12 then Some(t.(month := t.month + 1, day := 1, hour := 0))
    else if t.year < MaxYear then Some(Timestamp(t.year + 1, 1, 1, 0, t.minute))
    else None
  }

  /** Adding an hour adds exactly sixty minutes, across day, month and year ends. */
  lemma AddHourIsSixtyMinutes(t: Timestamp)
    requires Valid(t) && AddHour(t).Some?
    ensures Minutes(AddHour(t).value) == Minutes(t) + 60
  {
    if t.hour == 23 && t.day == DaysInMonth(t.year, t.month) {
      if t.month < 12 {
        DaysBeforeNextMonth(t.year, t.month);
      } else {
        DaysBeforeNextYear(t.year);
      }
    }
  }

  /** The closed-open interval `[start, end)` of the conflict query. */
  predicate InBlock(c: Timestamp, start: Timestamp, end: Timestamp) {
    AtOrBefore(start, c) && Before(c, end)
  }

  /** The conflict query's interval `[BlockStart(t), BlockStart(t) + 1h)` holds exactly the
      valid timestamps of `t`'s clock hour, including across a day, month or year end. */
  lemma InBlockIffSameHour(c: Timestamp, t: Timestamp)
    requires Valid(c) && Valid(t) && AddHour(BlockStart(t)).Some?
    ensures InBlock(c, BlockStart(t), AddHour(BlockStart(t)).value) <==> SameHour(c, t)
  {
    var s := BlockStart(t);
    var e := AddHour(s).value;
    if InBlock(c, s, e) {
      if s.hour == 23 && s.day == DaysInMonth(s.year, s.month) && s.month == 12 {
        assert e == Timestamp(s.year + 1, 1, 1, 0, 0);
      }
    }
  }

  // ---------------------------------------------------------------------------
  // The text format `%Y-%m-%dT%H:%M`

  function Pad2(n: nat): (s: string)
    requires n < 100
  {
    [DigitChar(n / 10), DigitChar(n % 10)]
  }

  function Pad4(n: nat): (s: string)
    requires n < 10000
  {
    Pad2(n / 100) + Pad2(n % 100)
  }

  /** The text `datetime-local` form fields send: `YYYY-MM-DDTHH:MM`. */
  function Format(t: Timestamp): (s: string)
    requires Valid(t)
    ensures |s| == 16
  {
    Pad4(t.year) + "-" + Pad2(t.month) + "-" + Pad2(t.day) + "T" + Pad2(t.hour) + ":" + Pad2(t.minute)
  }

  function Num2(a: char, b: char): nat
    requires IsDigit(a) && IsDigit(b)
  {
    10 * DigitValue(a) + DigitValue(b)
  }

  function Num4(a: char, b: char, c: char, d: char): nat
    requires IsDigit(a) && IsDigit(b) && IsDigit(c) && IsDigit(d)
  {
    100 * Num2(a, b) + Num2(c, d)
  }

  /** Positions of `YYYY-MM-DDTHH:MM` that hold digits. */
  predicate IsDigitPosition(i: int) {
    0 <= i < 16 && i != 4 && i != 7 && i != 10 && i != 13
  }

  predicate HasShape(s: string) {
    && |s| == 16
    && s[4] == '-' && s[7] == '-' && s[10] == 'T' && s[13] == ':'
    && forall i :: 0 <= i < 16 && IsDigitPosition(i) ==> IsDigit(s[i])
  }

  /** `datetime.strptime(s, "%Y-%m-%dT%H:%M")`, fixed width; `None` stands for the
      `ValueError` raised for text of another shape or for an impossible date. */
  function ParseFechaHora(s: string): (r: Option<Timestamp>)
    ensures r.Some? ==> Valid(r.value) && Format(r.value) == s
  {
    if !HasShape(s) then None
    else
      assert IsDigitPosition(0) && IsDigitPosition(1) && IsDigitPosition(2) && IsDigitPosition(3);
      assert IsDigitPosition(5) && IsDigitPosition(6) && IsDigitPosition(8) && IsDigitPosition(9);
      assert IsDigitPosition(11) && IsDigitPosition(12) && IsDigitPosition(14) && IsDigitPosition(15);
      var t := Timestamp(Num4(s[0], s[1], s[2], s[3]), Num2(s[5], s[6]), Num2(s[8], s[9]),
                         Num2(s[11], s[12]), Num2(s[14], s[15]));
      if !Valid(t) then None
      else
        Pad4OfNum4(s[0], s[1], s[2], s[3]);
        Pad2OfNum2(s[5], s[6]);
        Pad2OfNum2(s[8], s[9]);
        Pad2OfNum2(s[11], s[12]);
        Pad2OfNum2(s[14], s[15]);
        assert Format(t) == s;
        Some(t)
  }

  lemma Pad2OfNum2(a: char, b: char)
    requires IsDigit(a) && IsDigit(b)
    ensures Num2(a, b) < 100 && Pad2(Num2(a, b)) == [a, b]
  {
  }

  lemma Pad4OfNum4(a: char, b: char, c: char, d: char)
    requires IsDigit(a) && IsDigit(b) && IsDigit(c) && IsDigit(d)
    ensures Num4(a, b, c, d) < 10000 && Pad4(Num4(a, b, c, d)) == [a, b, c, d]
  {
    Pad2OfNum2(a, b);
    Pad2OfNum2(c, d);
  }

  lemma Num2OfPad2(n: nat)
    requires n < 100
    ensures var p := Pad2(n); Num2(p[0], p[1]) == n
  {
  }

  lemma Num4OfPad4(n: nat)
    requires n < 10000
    ensures var p := Pad4(n); Num4(p[0], p[1], p[2], p[3]) == n
  {
    Num2OfPad2(n / 100);
    Num2OfPad2(n % 100);
  }

  /** Every valid timestamp's text parses back to it. */
  lemma ParseFormat(t: Timestamp)
    requires Valid(t)
    ensures ParseFechaHora(Format(t)) == Some(t)
  {
    var s := Format(t);
    var (y, mo, d, h, mi) := (Pad4(t.year), Pad2(t.month), Pad2(t.day), Pad2(t.hour), Pad2(t.minute));
    assert s == y + "-" + mo + "-" + d + "T" + h + ":" + mi;
    assert s[0] == y[0] && s[1] == y[1] && s[2] == y[2] && s[3] == y[3];
    assert s[5] == mo[0] && s[6] == mo[1] && s[8] == d[0] && s[9] == d[1];
    assert s[11] == h[0] && s[12] == h[1] && s[14] == mi[0] && s[15] == mi[1];
    assert s[4] == '-' && s[7] == '-' && s[10] == 'T' && s[13] == ':';
    assert HasShape(s);
    Num4OfPad4(t.year);
    Num2OfPad2(t.month);
    Num2OfPad2(t.day);
    Num2OfPad2(t.hour);
    Num2OfPad2(t.minute);
  }

  /** The parser accepts exactly the fixed-width spelling of a valid timestamp, and reads it
      back as that timestamp. */
  lemma ParseFechaHoraIff(s: string, t: Timestamp)
    ensures ParseFechaHora(s) == Some(t) <==> Valid(t) && Format(t) == s
  {
    if Valid(t) && Format(t) == s {
      ParseFormat(t);
    }
  }
}
