/** The output side: `to_csv_row`, the column layout `write_csv` writes
    (the accounting tool's import schema), and the whole export — every
    inscription of the walk, in order, or nothing at all. */
module Csv {
  import opened Wrappers
  import opened Vocabulary
  import opened Decimal
  import opened Calendar
  import opened Records
  import opened Walker

  /** `CsvRow`: the eight values a transaction contributes to its line. */
  datatype CsvRow = CsvRow(
    timestamp: string,
    category: string,
    baseCurrency: string,
    baseAmount: string,
    from: string,
    to: string,
    hash: string,
    description: string)

  /** `to_csv_row`. The timestamp shows the instant in UTC to the second,
      the category follows the action (a mint is a mint, a transfer a
      purchase), the amount is its exact decimal text (which reads back as
      the same amount), and the description names the token standard, the
      action and the inscription. */
  function ToCsvRow(i: Inscription): (row: CsvRow)
    ensures Shows(row.timestamp, ToCivil(i.dateTime))
    ensures ToCivil(i.dateTime).year < 10000 ==> |row.timestamp| == 19
    ensures row.category == (if i.action == Mint then "mint" else "buy")
    ensures IsCanonical(row.baseAmount) && ParseU256(row.baseAmount) == Ok(i.amount)
    ensures row.baseCurrency == i.token && row.from == i.fromAddress
            && row.to == i.toAddress && row.hash == i.txId
    ensures row.description
            == "BRC20 " + (if i.action == Mint then "Mint" else "Transfer") + " with inscription_id " + i.inscriptionId
  {
    var amount := Render(i.amount);
    AmountRoundTrip(i.amount, amount);
    CsvRow(
      FormatInstant(i.dateTime),
      CategoryName(CategoryOf(i.action)),
      i.token,
      amount,
      i.fromAddress,
      i.toAddress,
      i.txId,
      Description(i))
  }

  /** The description column. */
  function Description(i: Inscription): (s: string)
    ensures s == "BRC20 " + (if i.action == Mint then "Mint" else "Transfer") + " with inscription_id " + i.inscriptionId
  {
    TokenTypeName(i.tokenType) + " " + ActionName(i.action) + " with inscription_id " + i.inscriptionId
  }

  /** The header line of the output file. */
  function Header(): (h: seq<string>)
    ensures |h| == 13
  {
    ["Timestamp (UTC)", "Type", "Base Currency", "Base Amount", "Quote Currency",
     "Quote Amount", "Fee Currency", "Fee Amount", "From", "To", "Blockchain", "ID",
     "Description"]
  }

  /** The line `write_csv` writes for a row, field by field in header
      order. */
  function CsvRecord(row: CsvRow): (cols: seq<string>)
    ensures |cols| == |Header()|
  {
    [row.timestamp, row.category, row.baseCurrency, row.baseAmount, "", "", "", "",
     row.from, row.to, "Bitcoin", row.hash, row.description]
  }

  /** The schema by column name: which value belongs under each header.
      Quote and fee columns stay empty and every transaction is on the
      Bitcoin chain. */
  function Column(name: string, row: CsvRow): string
  {
    if name == "Timestamp (UTC)" then row.timestamp
    else if name == "Type" then row.category
    else if name == "Base Currency" then row.baseCurrency
    else if name == "Base Amount" then row.baseAmount
    else if name == "From" then row.from
    else if name == "To" then row.to
    else if name == "Blockchain" then "Bitcoin"
    else if name == "ID" then row.hash
    else if name == "Description" then row.description
    else ""
  }

  /** Every value of a written line sits under the header that names it,
      and no header names two columns. */
  lemma RecordMatchesHeader(row: CsvRow)
    ensures forall k :: 0 <= k < |Header()| ==> CsvRecord(row)[k] == Column(Header()[k], row)
    ensures forall k, l :: 0 <= k < l < |Header()| ==> Header()[k] != Header()[l]
  {
    HeaderDistinct();
    var h := Header();
    assert h[4] != "Timestamp (UTC)" && h[5] != "Timestamp (UTC)" && h[6] != "Timestamp (UTC)" && h[7] != "Timestamp (UTC)";
  }

  /** The thirteen column names are pairwise distinct. */
  lemma HeaderDistinct()
    ensures forall k, l :: 0 <= k < l < |Header()| ==> Header()[k] != Header()[l]
  {
    var h := Header();
    assert h[0][0] == 'T' && h[1][0] == 'T' && h[9][0] == 'T';
    assert h[2][0] == 'B' && h[3][0] == 'B' && h[10][0] == 'B';
    assert h[4][0] == 'Q' && h[5][0] == 'Q' && h[6][0] == 'F' && h[7][0] == 'F' && h[8][0] == 'F';
    assert h[2][5] == 'C' && h[3][5] == 'A' && h[4][6] == 'C' && h[5][6] == 'A';
    assert h[6][4] == 'C' && h[7][4] == 'A' && |h[8]| == 4;
    assert h[11][0] == 'I' && h[12][0] == 'D';
  }

  /** The lines written for a list of inscriptions, one per inscription,
      in list order. */
  function CsvRecords(xs: seq<Inscription>): (lines: seq<seq<string>>)
    ensures |lines| == |xs|
    ensures forall k :: 0 <= k < |xs| ==> lines[k] == CsvRecord(ToCsvRow(xs[k]))
  {
    seq(|xs|, k requires 0 <= k < |xs| => CsvRecord(ToCsvRow(xs[k])))
  }

  /** What `main` puts in the output file after walking the pages from call
      0: the header and one line per inscription in fetch order, or, if the
      walk failed, the error and no file at all. */
  function Export(steps: Steps, stop: nat): (r: Result<seq<seq<string>>, Error>)
    requires Final(steps, stop)
  {
    var w := WalkFrom(steps, 0, stop);
    if w.failure.Some? then Err(w.failure.value) else Ok([Header()] + CsvRecords(w.appended))
  }

  /** The export is all or nothing: it fails exactly when a call of the walk
      fails, with that call's error; otherwise the file holds the header and
      the lines of every page, first page first, one line per inscription. */
  lemma ExportSpec(steps: Steps, stop: nat)
    requires Final(steps, stop)
    ensures var n := StopIndex(steps, 0, stop);
      && (forall j :: 0 <= j < n ==> steps(j).Ok?)
      && (Export(steps, stop).Err? <==> steps(n).Err?)
      && (steps(n).Err? ==> Export(steps, stop) == Err(steps(n).error))
      && (steps(n).Ok? ==> Export(steps, stop)
                           == Ok([Header()] + CsvRecords(PagesBetween(steps, 0, n) + steps(n).value.inscriptions)))
  {
    WalkSpec(steps, 0, stop);
  }

  /** One invalid record anywhere in a page the walk reaches means no line
      is written at all, however many pages before it were valid. */
  lemma {:induction false} InvalidRecordAbortsExport(fetch: Fetch, stop: nat, m: nat, raw: ResponseRaw, i: nat)
    requires Final(StepsOf(fetch), stop)
    requires forall j :: 0 <= j < m ==> !Final(StepsOf(fetch), j)
    requires fetch(m + 1) == Ok(raw) && |raw.data| > 0
    requires i < |raw.data[0].inscriptionsList| && ProcessInscription(raw.data[0].inscriptionsList[i]).Err?
    ensures Export(StepsOf(fetch), stop).Err?
  {
    var steps := StepsOf(fetch);
    assert Final(steps, m);
    var n := StopIndex(steps, 0, stop);
    assert n == m;
    ExportSpec(steps, stop);
  }
}
