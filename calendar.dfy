/** Timestamps: the API's decimal millisecond count, the UTC instant it
    denotes, that instant's proleptic Gregorian date and time of day, and
    its rendering with the format `%Y/%m/%d %H:%M:%S`. */
module Calendar {
  import opened Wrappers
  import opened Decimal

  /** A UTC instant, as the milliseconds since 1970-01-01T00:00:00Z that
      `unix_to_datetime` builds it from. */
  datatype Instant = Instant(millis: U64)

  /** `unix_to_datetime`: the text is read as a `u64` count of milliseconds
      (not seconds) after the Unix epoch. */
  function UnixToDateTime(timestamp: string): (r: Result<Instant, Error>)
    ensures r.Ok? <==> IsIntegerLiteral(timestamp, false) && LiteralValue(timestamp, false) < U64_LIMIT
    ensures r.Ok? ==> r.value.millis == LiteralValue(timestamp, false)
    ensures r.Err? ==> r.error.IntError?
  {
    var ms :- ParseU64(timestamp);
    Ok(Instant(ms))
  }

  // ---------------------------------------------------------------------
  // The Gregorian calendar, defined by counting

  predicate IsLeap(y: int)
  {
    y % 4 == 0 && (y % 100 != 0 || y % 400 == 0)
  }

  function DaysInYear(y: int): nat
  {
    if IsLeap(y) then 366 else 365
  }

  function DaysInMonth(y: int, m: nat): nat
    requires 1 <= m <= 12
  {
    if m == 2 then (if IsLeap(y) then 29 else 28)
    else if m == 4 || m == 6 || m == 9 || m == 11 then 30
    else 31
  }

  /** Days from 1970-01-01 to the first of January of year `y`. */
  function DaysBeforeYear(y: nat): nat
    requires y >= 1970
    decreases y
  {
    if y == 1970 then 0 else DaysBeforeYear(y - 1) + DaysInYear(y - 1)
  }

  /** Days from the first of January to the first of month `m`. */
  function DaysBeforeMonth(y: nat, m: nat): nat
    requires 1 <= m <= 12
    decreases m
  {
    if m == 1 then 0 else DaysBeforeMonth(y, m - 1) + DaysInMonth(y, m - 1)
  }

  datatype Date = Date(year: nat, month: nat, day: nat)

  predicate ValidDate(d: Date)
  {
    d.year >= 1970 && 1 <= d.month <= 12 && 1 <= d.day <= DaysInMonth(d.year, d.month)
  }

  /** The number of days from 1970-01-01 to `d`. */
  function DaysSinceEpoch(d: Date): nat
    requires ValidDate(d)
  {
    DaysBeforeYear(d.year) + DaysBeforeMonth(d.year, d.month) + d.day - 1
  }

  /** A UTC date and time of day, to the millisecond. */
  datatype Civil = Civil(year: nat, month: nat, day: nat, hour: nat, minute: nat, second: nat, milli: nat)

  function DateOf(c: Civil): Date
  {
    Date(c.year, c.month, c.day)
  }

  predicate ValidCivil(c: Civil)
  {
    ValidDate(DateOf(c)) && c.hour < 24 && c.minute < 60 && c.second < 60 && c.milli < 1000
  }

  /** The instant a valid civil date and time denotes, in milliseconds since
      the epoch: the reference the conversion below is proved against. */
  function UnixMillis(c: Civil): nat
    requires ValidCivil(c)
  {
    ((DaysSinceEpoch(DateOf(c)) * 24 + c.hour) * 60 + c.minute) * 60_000 + c.second * 1000 + c.milli
  }

  // ---------------------------------------------------------------------
  // Closed forms

  /** Days from 0000-03-01 to the first of March of year `y` of the
      proleptic Gregorian calendar: one leap day for every multiple of 4 up
      to `y`, less the centuries that are not multiples of 400. */
  function MarchDays(y: nat): nat
  {
    365 * y + y / 4 - y / 100 + y / 400
  }

  /** The March-based year `y` (1 March of `y` to the end of February of
      `y + 1`) has the length of the calendar year `y + 1`. */
  lemma MarchDaysStep(y: nat)
    ensures MarchDays(y + 1) == MarchDays(y) + DaysInYear(y + 1)
  {
    QuotientStep(y, 4);
    QuotientStep(y, 100);
    QuotientStep(y, 400);
  }

  /** The quotient by `d` grows by one exactly at the multiples of `d`. */
  lemma QuotientStep(y: nat, d: nat)
    requires d == 4 || d == 100 || d == 400
    ensures (y + 1) / d == y / d + (if (y + 1) % d == 0 then 1 else 0)
  {
    var q, r := y / d, y % d;
    assert y == q * d + r && 0 <= r < d;
    if r == d - 1 {
      assert y + 1 == (q + 1) * d;
    } else {
      assert y + 1 == q * d + (r + 1) && r + 1 < d;
    }
  }

  lemma {:induction false} MarchDaysMonotone(a: nat, b: nat)
    requires a <= b
    ensures MarchDays(a) + 365 * (b - a) <= MarchDays(b)
    decreases b - a
  {
    if a < b {
      MarchDaysMonotone(a, b - 1);
      MarchDaysStep(b - 1);
    }
  }

  /** The counted days before a year agree with the closed form: 719468 is
      the number of days from 0000-03-01 to 1970-01-01, and 306 the number
      of days from the first of March to the first of January. */
  lemma {:induction false} DaysBeforeYearClosed(y: nat)
    requires y >= 1970
    ensures DaysBeforeYear(y) + 719468 == MarchDays(y - 1) + 306
    decreases y
  {
    if y > 1970 {
      DaysBeforeYearClosed(y - 1);
      MarchDaysStep(y - 2);
    }
  }

  /** Days from the first of March to the first of each month, months
      counted from March (0) to February (11). */
  function MarchStart(mp: nat): nat
    requires mp < 12
  {
    [0, 31, 61, 92, 122, 153, 184, 214, 245, 275, 306, 337][mp]
  }

  lemma DaysBeforeMonthTable(y: nat)
    ensures DaysBeforeMonth(y, 1) == 0 && DaysBeforeMonth(y, 2) == 31
    ensures forall m :: 3 <= m <= 12 ==>
              DaysBeforeMonth(y, m) == 59 + (if IsLeap(y) then 1 else 0) + MarchStart(m - 3)
  {
    var leap := if IsLeap(y) then 1 else 0;
    assert DaysBeforeMonth(y, 3) == 59 + leap;
    assert DaysBeforeMonth(y, 4) == 90 + leap;
    assert DaysBeforeMonth(y, 5) == 120 + leap;
    assert DaysBeforeMonth(y, 6) == 151 + leap;
    assert DaysBeforeMonth(y, 7) == 181 + leap;
    assert DaysBeforeMonth(y, 8) == 212 + leap;
    assert DaysBeforeMonth(y, 9) == 243 + leap;
    assert DaysBeforeMonth(y, 10) == 273 + leap;
    assert DaysBeforeMonth(y, 11) == 304 + leap;
    assert DaysBeforeMonth(y, 12) == 334 + leap;
  }

  // ---------------------------------------------------------------------
  // The conversion

  /** A day counted in years that begin on the first of March, so that the
      leap day, when there is one, is the last day of its year. */
  datatype MarchDate = MarchDate(year: nat, dayOfYear: nat)

  /** Splits days since 0000-03-01 into 400-year eras, centuries, 4-year
      cycles and years. */
  function MarchDateOf(z: nat): (r: MarchDate)
    ensures MarchDays(r.year) + r.dayOfYear == z
    ensures r.dayOfYear < DaysInYear(r.year + 1)
  {
    var era, doe := z / 146097, z % 146097;
    var c := if doe / 36524 < 3 then doe / 36524 else 3;
    var doc := doe - 36524 * c;
    var q, doq := doc / 1461, doc % 1461;
    var yq := if doq / 365 < 3 then doq / 365 else 3;
    CycleSplit(z, era, c, q, doq, yq);
    MarchDate(400 * era + 100 * c + 4 * q + yq, doq - 365 * yq)
  }

  /** A split of `z` days into eras, centuries, 4-year cycles, years and a
      remainder lands on a day of that March-based year. */
  lemma CycleSplit(z: nat, era: nat, c: nat, q: nat, doq: nat, yq: nat)
    requires 146097 * era <= z < 146097 * era + 146097
    requires c <= 3 && 36524 * c <= z - 146097 * era
    requires c < 3 ==> z - 146097 * era < 36524 * c + 36524
    requires z - 146097 * era - 36524 * c == 1461 * q + doq && doq < 1461
    requires yq <= 3 && 365 * yq <= doq && (yq < 3 ==> doq < 365 * yq + 365)
    ensures MarchDays(400 * era + 100 * c + 4 * q + yq) + (doq - 365 * yq) == z
    ensures doq - 365 * yq < DaysInYear(400 * era + 100 * c + 4 * q + yq + 1)
  {
    assert q <= 24;
    CycleDays(era, c, q, yq);
    if doq - 365 * yq == 365 {
      assert yq == 3 && (q == 24 ==> c == 3);
      LeapAtCycleEnd(era, c, q);
    }
  }

  /** The year that ends a 4-year cycle is a leap year, unless it ends one
      of the first three centuries of an era. */
  lemma LeapAtCycleEnd(era: nat, c: nat, q: nat)
    requires c <= 3 && q <= 24 && (q == 24 ==> c == 3)
    ensures IsLeap(400 * era + 100 * c + 4 * q + 4)
  {
    var n := 400 * era + 100 * c + 4 * q + 4;
    assert n == 4 * (100 * era + 25 * c + q + 1);
    assert n % 4 == 0;
    if q < 24 {
      assert n == 100 * (4 * era + c) + (4 * q + 4) && 0 < 4 * q + 4 < 100;
      assert n % 100 != 0;
    } else {
      assert n == 400 * (era + 1);
      assert n % 400 == 0;
    }
  }

  /** The days a position in the 400-year cycle starts at. */
  lemma CycleDays(era: nat, c: nat, q: nat, yq: nat)
    requires c <= 3 && q <= 24 && yq <= 3
    ensures MarchDays(400 * era + 100 * c + 4 * q + yq) == 146097 * era + 36524 * c + 1461 * q + 365 * yq
  {
    var y := 400 * era + 100 * c + 4 * q + yq;
    assert y / 4 == 100 * era + 25 * c + q;
    assert y / 100 == 4 * era + c;
    assert y / 400 == era;
  }

  /** The month (0 = March, ..., 11 = February) a day of a March-based year
      falls in. */
  function MarchMonth(doy: nat): (mp: nat)
    ensures mp < 12 && MarchStart(mp) <= doy
    ensures mp < 11 ==> doy < MarchStart(mp + 1)
  {
    if doy < 31 then 0 else if doy < 61 then 1 else if doy < 92 then 2
    else if doy < 122 then 3 else if doy < 153 then 4 else if doy < 184 then 5
    else if doy < 214 then 6 else if doy < 245 then 7 else if doy < 275 then 8
    else if doy < 306 then 9 else if doy < 337 then 10 else 11
  }

  /** The calendar date `days` days after 1970-01-01. */
  function CivilFromDays(days: nat): (d: Date)
    ensures ValidDate(d) && DaysSinceEpoch(d) == days
  {
    var md := MarchDateOf(days + 719468);
    var mp := MarchMonth(md.dayOfYear);
    var day := md.dayOfYear - MarchStart(mp) + 1;
    MarchDaysLowerBound(md);
    if mp < 10 then
      SpringToDecember(md, mp);
      Date(md.year, mp + 3, day)
    else
      JanuaryFebruary(md, mp);
      Date(md.year + 1, mp - 9, day)
  }

  /** Months March to December of a March-based year are the months of
      the calendar year of the same number. */
  lemma SpringToDecember(md: MarchDate, mp: nat)
    requires md.year >= 1970 && mp < 10
    requires MarchStart(mp) <= md.dayOfYear < MarchStart(mp + 1)
    ensures var d := Date(md.year, mp + 3, md.dayOfYear - MarchStart(mp) + 1);
      && ValidDate(d) && DaysSinceEpoch(d) + 719468 == MarchDays(md.year) + md.dayOfYear
  {
    DaysBeforeMonthTable(md.year);
    DaysBeforeYearClosed(md.year);
    MarchDaysStep(md.year - 1);
  }

  /** January and February that end a March-based year are the first two
      months of the next calendar year. */
  lemma JanuaryFebruary(md: MarchDate, mp: nat)
    requires md.year >= 1969 && 10 <= mp < 12
    requires MarchStart(mp) <= md.dayOfYear < DaysInYear(md.year + 1)
    requires mp < 11 ==> md.dayOfYear < MarchStart(mp + 1)
    ensures var d := Date(md.year + 1, mp - 9, md.dayOfYear - MarchStart(mp) + 1);
      && ValidDate(d) && DaysSinceEpoch(d) + 719468 == MarchDays(md.year) + md.dayOfYear
  {
    DaysBeforeMonthTable(md.year + 1);
    DaysBeforeYearClosed(md.year + 1);
  }

  /** A March-based date on or after 1970-01-01 lies in March-based year
      1969 no earlier than January, or in a later year. */
  lemma MarchDaysLowerBound(md: MarchDate)
    requires MarchDays(md.year) + md.dayOfYear >= 719468
    requires md.dayOfYear < DaysInYear(md.year + 1)
    ensures md.year >= 1969 && (md.year == 1969 ==> md.dayOfYear >= 306)
  {
    if md.year < 1969 {
      MarchDaysMonotone(md.year + 1, 1969);
      MarchDaysStep(md.year);
    }
  }

  /** The date and time of day of an instant, in UTC. The result is the
      valid civil time that denotes exactly this instant (and, by
      `CivilUnique`, the only one). */
  function ToCivil(t: Instant): (c: Civil)
    ensures ValidCivil(c) && UnixMillis(c) == t.millis
  {
    var secs := t.millis / 1000;
    var sod := secs % 86400;
    var d := CivilFromDays(secs / 86400);
    var c := Civil(d.year, d.month, d.day, sod / 3600, sod % 3600 / 60, sod % 60, t.millis % 1000);
    SplitMillis(t.millis);
    assert DateOf(c) == d;
    c
  }

  lemma SplitMillis(ms: nat)
    ensures var secs := ms / 1000; var sod := secs % 86400;
      ms == (((secs / 86400) * 24 + sod / 3600) * 60 + sod % 3600 / 60) * 60_000 + (sod % 60) * 1000 + ms % 1000
  {
    var secs := ms / 1000;
    var sod := secs % 86400;
    assert ms == secs * 1000 + ms % 1000;
    assert secs == (secs / 86400) * 86400 + sod;
    assert sod == (sod / 3600) * 3600 + (sod % 3600 / 60) * 60 + sod % 60;
  }

  // ---------------------------------------------------------------------
  // Uniqueness: a valid civil time is determined by the instant it denotes

  /** The days before a month together with the month's own days never
      exceed the year. */
  lemma DayOfYearBound(d: Date)
    requires ValidDate(d)
    ensures DaysBeforeMonth(d.year, d.month) + d.day - 1 < DaysInYear(d.year)
  {
    DaysBeforeMonthTable(d.year);
  }

  /** A date in an earlier year comes earlier. */
  lemma EarlierYear(a: Date, b: Date)
    requires ValidDate(a) && ValidDate(b) && a.year < b.year
    ensures DaysSinceEpoch(a) < DaysSinceEpoch(b)
  {
    DayOfYearBound(a);
    YearsBefore(a.year, b.year);
  }

  /** A year and all its days lie before every later year. */
  lemma {:induction false} YearsBefore(a: nat, b: nat)
    requires 1970 <= a < b
    ensures DaysBeforeYear(a) + DaysInYear(a) <= DaysBeforeYear(b)
    decreases b
  {
    if a + 1 < b {
      YearsBefore(a, b - 1);
    }
  }

  /** A date in an earlier month of the same year comes earlier. */
  lemma EarlierMonth(a: Date, b: Date)
    requires ValidDate(a) && ValidDate(b) && a.year == b.year && a.month < b.month
    ensures DaysSinceEpoch(a) < DaysSinceEpoch(b)
  {
    DaysBeforeMonthTable(a.year);
  }

  lemma DateUnique(a: Date, b: Date)
    requires ValidDate(a) && ValidDate(b) && DaysSinceEpoch(a) == DaysSinceEpoch(b)
    ensures a == b
  {
    if a.year < b.year {
      EarlierYear(a, b);
    } else if b.year < a.year {
      EarlierYear(b, a);
    } else if a.month < b.month {
      EarlierMonth(a, b);
    } else if b.month < a.month {
      EarlierMonth(b, a);
    }
  }

  /** Two valid civil times that denote the same instant are the same. */
  lemma {:induction false} CivilUnique(a: Civil, b: Civil)
    requires ValidCivil(a) && ValidCivil(b) && UnixMillis(a) == UnixMillis(b)
    ensures a == b
  {
    SplitCivil(a);
    SplitCivil(b);
    DateUnique(DateOf(a), DateOf(b));
  }

  /** The fields of a valid civil time are the mixed-radix digits of its
      instant. */
  lemma SplitCivil(c: Civil)
    requires ValidCivil(c)
    ensures var t := UnixMillis(c); var secs := t / 1000; var sod := secs % 86400;
      && c.milli == t % 1000 && c.second == sod % 60 && c.minute == sod % 3600 / 60
      && c.hour == sod / 3600 && DaysSinceEpoch(DateOf(c)) == secs / 86400
  {
    var t := UnixMillis(c);
    var days := DaysSinceEpoch(DateOf(c));
    var sod := c.hour * 3600 + c.minute * 60 + c.second;
    var secs := days * 86400 + sod;
    assert t == secs * 1000 + c.milli;
    assert t / 1000 == secs && t % 1000 == c.milli;
    assert secs / 86400 == days && secs % 86400 == sod;
    assert sod / 3600 == c.hour && sod % 3600 == c.minute * 60 + c.second;
    assert (c.minute * 60 + c.second) / 60 == c.minute;
  }

  /** The conversion gives back the civil time of every valid civil time:
      `ToCivil` and `UnixMillis` are mutually inverse. */
  lemma ToCivilOfUnixMillis(c: Civil)
    requires ValidCivil(c) && UnixMillis(c) < U64_LIMIT
    ensures ToCivil(Instant(UnixMillis(c))) == c
  {
    CivilUnique(ToCivil(Instant(UnixMillis(c))), c);
  }

  // ---------------------------------------------------------------------
  // Rendering with `%Y/%m/%d %H:%M:%S`

  /** A number below 100 as two zero-padded digits (`%m`, `%d`, `%H`,
      `%M`, `%S`). */
  function Pad2(n: nat): (s: string)
    requires n < 100
    ensures |s| == 2 && AllDigits(s) && Value(s) == n
  {
    var s := [DigitChar(n / 10), DigitChar(n % 10)];
    ValueOfSnoc([], s[0]);
    ValueOfSnoc([s[0]], s[1]);
    assert [] + [s[0]] == [s[0]] && [s[0]] + [s[1]] == s;
    s
  }

  lemma ValueOfPair(a: string, b0: char, b1: char)
    requires AllDigits(a) && IsDigit(b0) && IsDigit(b1)
    ensures AllDigits(a + [b0, b1])
    ensures Value(a + [b0, b1]) == Value(a) * 100 + DigitValue(b0) * 10 + DigitValue(b1)
  {
    var a' := a + [b0];
    ValueOfSnoc(a, b0);
    ValueOfSnoc(a', b1);
    assert a' + [b1] == a + [b0, b1];
  }

  /** `%Y`: four zero-padded digits for the years 0 to 9999 and, as ISO 8601
      asks of other years, an explicit sign before the digits. Read back as
      an unsigned literal, the text gives the year. */
  function FormatYear(y: nat): (s: string)
    ensures IsIntegerLiteral(s, false) && LiteralValue(s, false) == y
    ensures y < 10000 ==> |s| == 4
    ensures y >= 10000 ==> s == "+" + Render(y)
    ensures YearShows(s, y)
  {
    if y < 10000 then
      var hi, lo := Pad2(y / 100), Pad2(y % 100);
      ValueOfPair(hi, lo[0], lo[1]);
      assert lo == [lo[0], lo[1]];
      var s := hi + [lo[0], lo[1]];
      assert IsDigit(s[0]);
      assert Value(s) == y;
      s
    else
      var s := "+" + Render(y);
      assert s[1..] == Render(y);
      s
  }

  /** `s[i]` and `s[i + 1]` are digits that read as `v`. */
  predicate TwoDigitsAt(s: string, i: nat, v: nat)
  {
    i + 1 < |s| && IsDigit(s[i]) && IsDigit(s[i + 1]) && DigitValue(s[i]) * 10 + DigitValue(s[i + 1]) == v
  }

  /** `p` is the `%Y` text of year `y`: four digits, zero-padded, below
      10000, and beyond that a `+` followed by the year's decimal digits. */
  predicate YearShows(p: string, y: nat)
  {
    if y < 10000 then |p| == 4 && AllDigits(p) && Value(p) == y
    else |p| > 1 && p[0] == '+' && IsCanonical(p[1..]) && Value(p[1..]) == y
  }

  /** `s` is the `%Y/%m/%d %H:%M:%S` text of `c`: the year is everything
      before the last fifteen characters, and the other fields are the
      two-digit groups between the fixed separators. */
  predicate Shows(s: string, c: Civil)
  {
    |s| >= 15 && var n := |s| - 15;
      && YearShows(s[..n], c.year)
      && s[n] == '/' && s[n + 3] == '/' && s[n + 6] == ' ' && s[n + 9] == ':' && s[n + 12] == ':'
      && TwoDigitsAt(s, n + 1, c.month) && TwoDigitsAt(s, n + 4, c.day)
      && TwoDigitsAt(s, n + 7, c.hour) && TwoDigitsAt(s, n + 10, c.minute)
      && TwoDigitsAt(s, n + 13, c.second)
  }

  /** `%Y/%m/%d %H:%M:%S` applied to a civil time: nineteen characters for
      a four-digit year, and every field but the milliseconds can be read
      back from the text. */
  function FormatCivil(c: Civil): (s: string)
    requires ValidCivil(c)
    ensures c.year < 10000 ==> |s| == 19
    ensures Shows(s, c)
  {
    var y := FormatYear(c.year);
    var (mo, d, h, mi, se) := (Pad2(c.month), Pad2(c.day), Pad2(c.hour), Pad2(c.minute), Pad2(c.second));
    PadDigits(c.month);
    PadDigits(c.day);
    PadDigits(c.hour);
    PadDigits(c.minute);
    PadDigits(c.second);
    ShowsLayout(y, mo, d, h, mi, se, c);
    y + Layout(mo, d, h, mi, se)
  }

  /** `p` is two digits that read as `v`. */
  predicate TwoDigits(p: string, v: nat)
  {
    |p| == 2 && IsDigit(p[0]) && IsDigit(p[1]) && DigitValue(p[0]) * 10 + DigitValue(p[1]) == v
  }

  /** The part of the text after the year, from two-character fields. */
  function Layout(mo: string, d: string, h: string, mi: string, se: string): string
    requires |mo| == 2 && |d| == 2 && |h| == 2 && |mi| == 2 && |se| == 2
  {
    ['/', mo[0], mo[1], '/', d[0], d[1], ' ', h[0], h[1], ':', mi[0], mi[1], ':', se[0], se[1]]
  }

  lemma ShowsLayout(y: string, mo: string, d: string, h: string, mi: string, se: string, c: Civil)
    requires YearShows(y, c.year)
    requires TwoDigits(mo, c.month) && TwoDigits(d, c.day) && TwoDigits(h, c.hour)
    requires TwoDigits(mi, c.minute) && TwoDigits(se, c.second)
    ensures |y + Layout(mo, d, h, mi, se)| == |y| + 15
    ensures Shows(y + Layout(mo, d, h, mi, se), c)
  {
    var rest := Layout(mo, d, h, mi, se);
    var s := y + rest;
    assert s[..|y|] == y;
    assert forall i :: 0 <= i < 15 ==> s[|y| + i] == rest[i];
    var n := |y|;
    assert TwoDigitsAt(s, n + 1, c.month) && TwoDigitsAt(s, n + 4, c.day);
    assert TwoDigitsAt(s, n + 7, c.hour) && TwoDigitsAt(s, n + 10, c.minute);
    assert TwoDigitsAt(s, n + 13, c.second);
  }

  /** A year has one `%Y` text. */
  lemma YearShowsUnique(p: string, q: string, y: nat)
    requires YearShows(p, y) && YearShows(q, y)
    ensures p == q
  {
    if y < 10000 {
      SameLengthSameValue(p, q);
    } else {
      CanonicalRoundTrip(p[1..]);
      CanonicalRoundTrip(q[1..]);
      assert p == [p[0]] + p[1..] && q == [q[0]] + q[1..];
    }
  }

  /** A number below 100 has one two-digit text. */
  lemma TwoDigitsAtUnique(s: string, t: string, i: nat, j: nat, v: nat)
    requires TwoDigitsAt(s, i, v) && TwoDigitsAt(t, j, v)
    ensures s[i] == t[j] && s[i + 1] == t[j + 1]
  {
    assert DigitValue(s[i]) == DigitValue(t[j]) && DigitValue(s[i + 1]) == DigitValue(t[j + 1]);
  }

  /** A civil time has exactly one `%Y/%m/%d %H:%M:%S` text. */
  lemma ShowsUnique(s: string, t: string, c: Civil)
    requires Shows(s, c) && Shows(t, c)
    ensures s == t
  {
    var n, m := |s| - 15, |t| - 15;
    YearShowsUnique(s[..n], t[..m], c.year);
    assert n == m;
    TwoDigitsAtUnique(s, t, n + 1, n + 1, c.month);
    TwoDigitsAtUnique(s, t, n + 4, n + 4, c.day);
    TwoDigitsAtUnique(s, t, n + 7, n + 7, c.hour);
    TwoDigitsAtUnique(s, t, n + 10, n + 10, c.minute);
    TwoDigitsAtUnique(s, t, n + 13, n + 13, c.second);
    forall k | 0 <= k < |s| ensures s[k] == t[k] {
      if k < n {
        assert s[k] == s[..n][k] && t[k] == t[..n][k];
      }
    }
  }

  /** The formatted text is the only text that shows a civil time. */
  lemma FormatCivilExactly(s: string, c: Civil)
    requires ValidCivil(c)
    ensures Shows(s, c) <==> s == FormatCivil(c)
  {
    if Shows(s, c) {
      ShowsUnique(s, FormatCivil(c), c);
    }
  }

  lemma PadDigits(n: nat)
    requires n < 100
    ensures TwoDigits(Pad2(n), n)
  {
  }

  /** The timestamp column: an instant rendered in UTC. */
  function FormatInstant(t: Instant): (s: string)
    ensures Shows(s, ToCivil(t))
    ensures ToCivil(t).year < 10000 ==> |s| == 19
  {
    FormatCivil(ToCivil(t))
  }

  /** The milliseconds of a valid civil time are the last three decimal
      places of its instant. */
  lemma MillisOfSecond(c: Civil)
    requires ValidCivil(c)
    ensures UnixMillis(c) / 1000 == UnixMillis(c.(milli := 0)) / 1000
  {
    var x := ((DaysSinceEpoch(DateOf(c)) * 24 + c.hour) * 60 + c.minute) * 60 + c.second;
    assert DateOf(c.(milli := 0)) == DateOf(c);
    assert UnixMillis(c.(milli := 0)) == x * 1000;
    assert UnixMillis(c) == x * 1000 + c.milli;
    WholeSeconds(x, c.milli);
  }

  lemma WholeSeconds(x: nat, m: nat)
    requires m < 1000
    ensures (x * 1000 + m) / 1000 == (x * 1000) / 1000
  {
    assert (x * 1000 + m) / 1000 == x;
  }

  /** The timestamp column is exact to the second: two instants print alike
      exactly when they fall in the same second. */
  lemma {:induction false} FormatInstantSameSecond(t1: Instant, t2: Instant)
    ensures FormatInstant(t1) == FormatInstant(t2) <==> t1.millis / 1000 == t2.millis / 1000
  {
    if t1.millis / 1000 == t2.millis / 1000 {
      SameSecondSameText(t1, t2);
    }
    if FormatInstant(t1) == FormatInstant(t2) {
      SameTextSameSecond(t1, t2);
    }
  }

  /** The milliseconds do not show. */
  lemma SameSecondSameText(t1: Instant, t2: Instant)
    requires t1.millis / 1000 == t2.millis / 1000
    ensures FormatInstant(t1) == FormatInstant(t2)
  {
    var a, b := ToCivil(t1), ToCivil(t2);
    SplitCivil(a);
    SplitCivil(b);
    DateUnique(DateOf(a), DateOf(b));
    assert a.(milli := 0) == b.(milli := 0);
    assert FormatCivil(a) == FormatCivil(a.(milli := 0));
    assert FormatCivil(b) == FormatCivil(b.(milli := 0));
  }

  /** Everything down to the second can be read back from the text. */
  lemma SameTextSameSecond(t1: Instant, t2: Instant)
    requires FormatInstant(t1) == FormatInstant(t2)
    ensures t1.millis / 1000 == t2.millis / 1000
  {
    var a, b := ToCivil(t1), ToCivil(t2);
    var s := FormatInstant(t1);
    assert Shows(s, a) && Shows(s, b);
    assert a.(milli := 0) == b.(milli := 0);
    MillisOfSecond(a);
    MillisOfSecond(b);
  }
}
