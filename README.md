# oklink_processor, modelled in Dafny

oklink_processor is a command-line tool. It downloads a wallet's BRC20
inscription transactions from the OKLink explorer API one page at a time and
writes them as a CSV file in the import schema of an accounting tool. This
project models what `src/main.rs` does, apart from its I/O, and proves
properties of that model:

- **Closed vocabularies** (`Vocabulary`). Actions, transaction states and
  token standards are parsed by exact, case-sensitive match. Any other text
  is an error that carries the offending input.
- **Numbers** (`Decimal`). Amounts are decimal text parsed into 256-bit
  unsigned integers (`U256::from_dec_str`). Page numbers and timestamps are
  parsed with the standard library's `i32`/`u64` `FromStr`. Rendering an
  amount and parsing the text back gives the same amount.
- **Timestamps** (`Calendar`). A timestamp is a `u64` count of milliseconds
  since the Unix epoch. It becomes a UTC proleptic Gregorian date and time,
  shown as `%Y/%m/%d %H:%M:%S`. The conversion is proved to be a bijection
  (a round trip and uniqueness). The rendering is proved to show exactly that
  date and time, to the second.
- **Normalisation** (`Records`).
  - `process_inscription` checks five fields in a fixed order and copies the
    rest.
  - `process_pagination` fails the whole page on its first bad record.
  - `process_response` looks only at the first pagination block.
- **The pagination walk** (`Walker`). `fetch_pages` requests API pages 1,
  2, … in turn. It extends the caller's list with each page's inscriptions.
  It stops after the page whose number equals the reported page count, or at
  the first error.
  - The HTTP request together with JSON decoding is a parameter: a function
    from the 1-based page number to a decoded envelope or an error.
  - The caller's `Vec` is a class whose `seq` field is extended in place.
  - The self-call is a `while` loop. It is proved against a recursive
    specification of the walk (`WalkFrom`).
  - The walk is also characterised without recursion (`WalkSpec`). It is
    proved to read nothing beyond the page it stops at (`WalkLocality`).
- **Output** (`Csv`).
  - `to_csv_row` and the 13-column line `write_csv` writes, each value
    under its header.
  - The whole export `main` produces: the header plus one line per
    inscription in fetch order, or the walk's error and no file.
- **The repository's unit tests** (`SourceTests`). `test_to_csv_row` and
  `test_unix_to_datetime` are restated about the model and proved.

Files: `wrappers.dfy` (Result, error values and their messages),
`vocabulary.dfy`, `decimal.dfy`, `calendar.dfy`, `records.dfy`,
`walker.dfy`, `csv.dfy` and `examples.dfy`.

The call counter of `fetch_pages` starts at 0, and call `k` requests API
page `k + 1`. The model keeps that numbering: `Step(fetch, k)` is what call
`k` obtains. Nothing in the source bounds the number of pages. The walk is
therefore defined under a ghost hypothesis `stop`: a call index at which the
walk certainly ends. `WalkStopIrrelevant` proves that the result does not
depend on which such `stop` is chosen.

The code keeps the transaction `state` as a parsed field of `Inscription`,
but no output reads it. The model does the same: an unknown state fails the
record, and a known state changes nothing in the CSV.

## Model

| member | source | states |
|---|---|---|
| Vocabulary.ParseAction | src/main.rs:15-25 | "mint" and "transfer" are accepted, each as its own action. Every other text fails with `Unknown action: <input>`. |
| Vocabulary.ParseState | src/main.rs:57-66 | Only "success" is accepted. Every other text fails with `Unknown state: <input>`. |
| Vocabulary.ParseTokenType | src/main.rs:75-84 | Only "BRC20" is accepted. Every other text fails with `Unknown token type: <input>`. |
| Vocabulary.ActionVocabulary | src/main.rs:18-24 | Each action has exactly one accepted spelling. |
| Vocabulary.ParsersRejectVariants | src/main.rs:9-24 | Matching is case-sensitive and exact. An action's derived display name ("Mint", "Transfer") is not accepted as input, and neither are padded or re-spelled variants. |
| Vocabulary.CategoryOf | src/main.rs:264-267 | A mint is filed as a mint, and a transfer as a purchase (both directions). |
| Decimal.Render | src/main.rs:272 | The decimal text of an amount has no leading zeros, and its digits denote the amount. |
| Decimal.CanonicalRoundTrip | src/main.rs:272 | Rendering the value of a canonical digit string gives that string back. |
| Decimal.AccumulateValue | src/main.rs:217 | The digit-by-digit accumulation with an overflow check succeeds exactly when the digits' value is within the limit, and then yields that value. |
| Decimal.ParseU256 | src/main.rs:217 | An amount is accepted exactly when it is all decimal digits with a value below 2^256, and is read exactly. A non-digit gives `InvalidCharacter`, and too large a value gives `InvalidLength`. |
| Decimal.AmountRoundTrip | src/main.rs:217 | Parsing the rendering of any 256-bit amount gives the amount back. |
| Decimal.AmountTextRoundTrip | src/main.rs:272 | A canonical amount text that parses renders back to the same text. |
| Decimal.ParsePrimitiveCorrect | src/main.rs:243-244 | The integer `FromStr` accepts exactly the literals whose value lies in the type's range, and reads them exactly. A literal is an optional sign, with `-` only for signed types, followed by digits. |
| Decimal.ParseU64 | src/main.rs:285 | `u64::from_str` accepts exactly the unsigned literals below 2^64, and reads them exactly. Its errors are integer-parse errors. |
| Decimal.ParseI32 | src/main.rs:243-244 | `i32::from_str` accepts exactly the literals in -2^31..2^31-1, and reads them exactly. Its errors are integer-parse errors. |
| Calendar.UnixToDateTime | src/main.rs:284-288 | The timestamp text is accepted exactly when it is a `u64` literal, and then denotes that many milliseconds after the epoch. A bad text fails with the integer-parse error. |
| Calendar.CivilFromDays | src/main.rs:286-287 | A day count since 1970-01-01 becomes a valid Gregorian date that lies exactly that many days after the epoch. |
| Calendar.ToCivil | src/main.rs:286-287 | The UTC date and time of an instant is a valid civil time that denotes exactly that instant. |
| Calendar.CivilUnique | src/main.rs:286-287 | Two valid civil times that denote the same instant are equal. |
| Calendar.ToCivilOfUnixMillis | src/main.rs:286-287 | Every valid civil time within the `u64` range is the UTC reading of the instant it denotes. |
| Calendar.FormatYear | src/main.rs:269 | `%Y` shows the year's decimal value: four zero-padded digits below 10000, and from 10000 on a `+` followed by the year's digits. |
| Calendar.FormatCivil | src/main.rs:269 | `%Y/%m/%d %H:%M:%S`: the year, then `/`, two-digit month, `/`, two-digit day, a space, and two-digit hour, minute and second separated by `:`. The text has 19 characters for years below 10000. |
| Calendar.FormatCivilExactly | src/main.rs:269 | A text shows a civil time exactly when it is that time's formatted text: the layout above, with its zero-padded four-digit year, fixes every character. |
| Calendar.FormatInstant | src/main.rs:269 | The timestamp text shows the instant's UTC date and time in the layout above, and has 19 characters for years below 10000. |
| Calendar.FormatInstantSameSecond | src/main.rs:269 | Two instants give the same timestamp text exactly when they fall in the same second. |
| Records.ProcessInscription | src/main.rs:215-233 | A record succeeds exactly when its action, amount, time, state and token type are all valid. It then carries their parsed values and copies the other five fields verbatim. |
| Records.ProcessInscriptionFirstFailure | src/main.rs:216-220 | A failing record fails with the error of its first invalid field, in the order action, amount, time, state, token type. |
| Records.ProcessAll | src/main.rs:237-242 | Collecting the records succeeds exactly when every record does. It then keeps them in order, one for one. Otherwise it gives the error of the first failing record. |
| Records.ProcessPagination | src/main.rs:236-250 | A page succeeds exactly when all its records, its page number and its page count are valid, and it then carries them. A failing page fails with the error of its first bad record. If every record is valid, it fails with the page number's error, and after that with the page count's. Its errors are never "no pagination" or a fetch error. |
| Records.ProcessResponse | src/main.rs:253-260 | An envelope fails with `No Pagination found` exactly when it has no block. Otherwise its result is that of the first block alone. |
| Walker.StopIndex | src/main.rs:207-211 | The call the walk ends with is the first call that fails or reports the last page. |
| Walker.PagesBetweenSnoc | src/main.rs:202 | Each successful call adds its page's inscriptions after those of earlier calls. |
| Walker.WalkSpec | src/main.rs:187-212 | The walk appends the inscriptions of every call before the final one, in call order, and each of those calls succeeded on a page that was not the last. Then either the final call failed and its error is the result, or it reported the last page and its inscriptions are appended too. |
| Walker.WalkStopIrrelevant | src/main.rs:207-211 | The walk's result does not depend on the bound chosen for it. |
| Walker.WalkAgree | src/main.rs:207-211 | Two walks whose calls agree up to the final call of the first give the same result. |
| Walker.WalkLocality | src/main.rs:194-211 | No API page after the final call's is ever requested: a fetch that answers pages `k+1`..`n+1` alike gives the same walk. |
| Walker.InscriptionList.constructor | src/main.rs:175 | The accumulator starts empty. |
| Walker.InscriptionList.Extend | src/main.rs:202 | `extend` appends the page's inscriptions after the existing ones. |
| Walker.FetchPage | src/main.rs:194-201 | One round hands API page `p + 1` to `fetch` and reports that number. It normalises the envelope, and passes a transport or decoding error on unchanged. |
| Walker.FetchPages | src/main.rs:187-212 | The loop leaves the caller's list followed by exactly the walk's inscriptions, including those appended before an error. It succeeds, returning the caller's list, exactly when the walk does; otherwise it returns the walk's error. The page numbers handed to `fetch` are `page+1`, `page+2`, … up to the final call, one each, in order. |
| Csv.ToCsvRow | src/main.rs:263-281 | The row shows the instant's UTC date and time as `YYYY/MM/DD HH:MM:SS` (19 characters for years below 10000), files a mint as "mint" and a transfer as "buy", and renders the amount as exact decimal text that parses back to it. It copies the token, addresses and transaction id, and describes the record as `BRC20 Mint with inscription_id <id>` or `BRC20 Transfer with inscription_id <id>`. |
| Csv.Description | src/main.rs:276-279 | The description names the token standard, the action and the inscription id. |
| Csv.CsvRecord | src/main.rs:312-327 | A written line has as many values as the header. |
| Csv.RecordMatchesHeader | src/main.rs:297-327 | Every value of a line sits under the header that names it. The header names are pairwise distinct. Quote and fee columns are empty, and the blockchain column is "Bitcoin". |
| Csv.CsvRecords | src/main.rs:312-328 | One line per inscription, in list order. |
| Csv.ExportSpec | src/main.rs:168-181 | The export fails exactly when a call of the walk from page 1 fails, with that call's error. Otherwise the file holds the header, then the lines of every page's inscriptions, first page first. |
| Csv.InvalidRecordAbortsExport | src/main.rs:237-242 | A single invalid record on a page the walk reaches means no file is written. |
| SourceTests.UnixToDateTimeTest | src/main.rs:362-369 | "1685092041000" is the instant 1685092041000 ms after the epoch. |
| SourceTests.UnixToDateTimeCivil | src/main.rs:362-369 | That instant is 2023-05-26 09:07:21 UTC. |
| SourceTests.AmountTest | src/main.rs:338 | "1000" parses to the amount 1000. |
| SourceTests.SignedYearNotShown | src/main.rs:349 | "+2023/07/07 01:23:45" does not show 2023-07-07 01:23:45: a four-digit year carries no sign. |
| SourceTests.TimestampTest | src/main.rs:339-349 | 2023-07-07T01:23:45Z is shown as "2023/07/07 01:23:45". |
| SourceTests.ToCsvRowTest | src/main.rs:334-360 | The test's transfer of 1000 at 2023-07-07 01:23:45 UTC becomes the expected purchase row. |

## Left out

- The HTTP request, its URL, its headers and the response body's text are left out: this is network I/O. The request for a page together with its JSON decoding is the `Fetch` parameter, indexed by the 1-based API page.
- JSON decoding by serde is part of `Fetch`. Decoding failures are whatever error `Fetch` returns.
- Command-line parsing with clap, the `println!` progress output and the `Args` record are left out: they are I/O that no result depends on.
- `write_csv`'s directory creation, its file name from the local clock, the CSV writer's quoting and the flush are left out: they are file I/O and clock access. `Csv.Export` models the lines written.
- Walker.FetchPages: the page counter is a `nat`. The `i32` overflow of `page + 1` after 2^31 - 1 calls is not modelled.
- Walker.FetchPages: termination is proved only under the ghost hypothesis `stop` that some call ends the walk. The source has no bound, and an API that never reports its last page makes it recurse forever.
- Calendar.ToCivil: `DateTime::<Utc>::from` panics for instants beyond chrono's last representable year (262143). That panic is not modelled: every `u64` millisecond count is converted.
- Calendar.Instant holds milliseconds only. `Duration::from_millis` sets the nanoseconds to the milliseconds' remainder times 10^6, so no precision finer than a millisecond ever arises and counting milliseconds loses nothing.
- Decimal.ParseU256: the error kind for an over-long text that also holds a non-digit, and the result for the empty text (zero), follow the `uint` crate's implementation. The repository does not pin these down, and nothing in it depends on them.
- Decimal.ParseI32 and Decimal.ParseU64: which error kind an invalid literal produces follows the current Rust standard library. Only the accept/reject split and the value are relied on here.
- SourceTests.ToCsvRowTest: the test's token, addresses, transaction id and inscription id are kept as variables, because the row copies them verbatim. The expected description is written as the concatenation of its words.
