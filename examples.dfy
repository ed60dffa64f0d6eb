/** The repository's own unit tests (`test_to_csv_row`,
    `test_unix_to_datetime`) and a few concrete instances of the parsers'
    contracts, stated about the model. */
module SourceTests {
  import opened Wrappers
  import opened Vocabulary
  import opened Decimal
  import opened Calendar
  import opened Records
  import opened Csv

  /** One more digit on the right of a numeral of a positive number. */
  lemma RenderSnoc(n: nat, s: string, d: nat)
    requires 0 < n && d < 10 && Render(n) == s
    ensures Render(10 * n + d) == s + [DigitChar(d)]
  {
  }

  lemma Render1000(s: string)
    requires s == "1000"
    ensures Render(1000) == s
  {
    RenderSnoc(1, "1", 0);
    RenderSnoc(10, "10", 0);
    RenderSnoc(100, "100", 0);
  }

  /** The rendering of a `u64` reads back as the same timestamp. */
  lemma {:induction false} TimestampText(n: U64, s: string)
    requires Render(n) == s
    ensures UnixToDateTime(s) == Ok(Instant(n))
  {
    assert IsDigit(s[0]);
  }

  /** `test_unix_to_datetime`, first half: the text "1685092041000" is the
      instant 1685092041000 ms after the epoch. */
  lemma UnixToDateTimeTest(s: string)
    requires s == "1685092041000"
    ensures UnixToDateTime(s) == Ok(Instant(1685092041000))
  {
    RenderSnoc(1, "1", 6);
    RenderSnoc(16, "16", 8);
    RenderSnoc(168, "168", 5);
    RenderSnoc(1685, "1685", 0);
    RenderSnoc(16850, "16850", 9);
    RenderSnoc(168509, "168509", 2);
    RenderSnoc(1685092, "1685092", 0);
    RenderSnoc(16850920, "16850920", 4);
    RenderSnoc(168509204, "168509204", 1);
    RenderSnoc(1685092041, "1685092041", 0);
    RenderSnoc(16850920410, "16850920410", 0);
    RenderSnoc(168509204100, "168509204100", 0);
    TimestampText(1685092041000, s);
  }

  /** The instant `DateTime::parse_from_rfc3339("2023-05-26T09:07:21Z")`
      denotes. */
  lemma FirstTestInstant(c: Civil)
    requires c == Civil(2023, 5, 26, 9, 7, 21, 0)
    ensures ValidCivil(c) && UnixMillis(c) == 1685092041000
  {
    DaysBeforeYearClosed(c.year);
    DaysBeforeMonthTable(c.year);
    assert !IsLeap(c.year);
    assert DaysBeforeMonth(c.year, c.month) == 120;
    assert DaysBeforeYear(c.year) == 19358;
    assert DaysSinceEpoch(DateOf(c)) == 19503;
  }

  /** `test_unix_to_datetime`, second half: that instant is
      2023-05-26 09:07:21 UTC. */
  lemma UnixToDateTimeCivil(t: Instant, c: Civil)
    requires t == Instant(1685092041000) && c == Civil(2023, 5, 26, 9, 7, 21, 0)
    ensures ToCivil(t) == c
  {
    FirstTestInstant(c);
    ToCivilOfUnixMillis(c);
  }

  /** The amount of the CSV test parses exactly. */
  lemma AmountTest(s: string)
    requires s == "1000"
    ensures ParseU256(s) == Ok(1000)
  {
    Render1000(s);
    AmountRoundTrip(1000, s);
  }

  lemma FormatCivilTest(c: Civil, s: string)
    requires c == Civil(2023, 7, 7, 1, 23, 45, 0) && s == "2023/07/07 01:23:45"
    ensures FormatCivil(c) == s
  {
    YearText(c.year, "2023");
    LayoutText("/07/07 01:23:45");
    assert FormatCivil(c) == FormatYear(c.year) + Layout(Pad2(7), Pad2(7), Pad2(1), Pad2(23), Pad2(45));
    assert "2023" + "/07/07 01:23:45" == s;
  }

  lemma YearText(y: nat, s: string)
    requires y == 2023 && s == "2023"
    ensures FormatYear(y) == s
  {
    assert Pad2(20) == "20" && Pad2(23) == "23";
  }

  lemma LayoutText(s: string)
    requires s == "/07/07 01:23:45"
    ensures Layout(Pad2(7), Pad2(7), Pad2(1), Pad2(23), Pad2(45)) == s
  {
    assert Pad2(7) == "07" && Pad2(1) == "01" && Pad2(23) == "23" && Pad2(45) == "45";
  }

  /** A four-digit year is never written with a sign. */
  lemma SignedYearNotShown(s: string, c: Civil)
    requires s == "+2023/07/07 01:23:45" && c == Civil(2023, 7, 7, 1, 23, 45, 0)
    ensures !Shows(s, c)
  {
    assert |s[..|s| - 15]| == 5;
  }

  /** The instant `DateTime::parse_from_rfc3339("2023-07-07T01:23:45Z")`
      denotes. */
  lemma SecondTestInstant(c: Civil)
    requires c == Civil(2023, 7, 7, 1, 23, 45, 0)
    ensures ValidCivil(c) && UnixMillis(c) == 1688693025000
  {
    DaysBeforeYearClosed(c.year);
    DaysBeforeMonthTable(c.year);
    assert !IsLeap(c.year);
    assert DaysBeforeMonth(c.year, c.month) == 181;
    assert DaysBeforeYear(c.year) == 19358;
    assert DaysSinceEpoch(DateOf(c)) == 19545;
  }

  /** The timestamp column of the CSV test. */
  lemma TimestampTest(t: Instant, c: Civil, s: string)
    requires t == Instant(1688693025000) && c == Civil(2023, 7, 7, 1, 23, 45, 0)
    requires s == "2023/07/07 01:23:45"
    ensures FormatInstant(t) == s
  {
    SecondTestInstant(c);
    ToCivilOfUnixMillis(c);
    FormatCivilTest(c, s);
  }

  /** The record of `test_to_csv_row`, up to the fields the row copies. */
  predicate TestRecord(inscription: Inscription)
  {
    && inscription.action == Transfer && inscription.amount == 1000
    && inscription.dateTime == Instant(1688693025000) && inscription.tokenType == BRC20
  }

  lemma TestRowTimestamp(inscription: Inscription)
    requires TestRecord(inscription)
    ensures ToCsvRow(inscription).timestamp == "2023/07/07 01:23:45"
  {
    TimestampTest(inscription.dateTime, Civil(2023, 7, 7, 1, 23, 45, 0), "2023/07/07 01:23:45");
  }

  lemma TestRowAmount(inscription: Inscription)
    requires TestRecord(inscription)
    ensures ToCsvRow(inscription).baseAmount == "1000"
  {
    Render1000("1000");
  }

  /** `test_to_csv_row`: a BRC20 transfer of 1000 at 2023-07-07 01:23:45
      UTC becomes a purchase row that copies the token, the addresses and
      the transaction id. The test's record, with token "sats", addresses
      "from" and "to", id "hash" and inscription "inscription_id", is one
      instance; its expected description is the concatenation below. */
  lemma ToCsvRowTest(inscription: Inscription)
    requires TestRecord(inscription)
    ensures ToCsvRow(inscription)
            == CsvRow("2023/07/07 01:23:45", "buy", inscription.token, "1000",
                      inscription.fromAddress, inscription.toAddress, inscription.txId,
                      "BRC20 " + "Transfer" + " with inscription_id " + inscription.inscriptionId)
  {
    TestRowTimestamp(inscription);
    TestRowAmount(inscription);
  }
}
