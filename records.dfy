/** The raw records the explorer API returns (every field a string) and
    their normalisation into domain records: one transaction
    (`process_inscription`), one page (`process_pagination`) and one
    response envelope (`process_response`). */
module Records {
  import opened Wrappers
  import opened Vocabulary
  import opened Decimal
  import opened Calendar

  /** `InscriptionRaw`: one transaction as the API sends it. */
  datatype InscriptionRaw = InscriptionRaw(
    actionType: string,
    amount: string,
    fromAddress: string,
    inscriptionId: string,
    state: string,
    time: string,
    toAddress: string,
    token: string,
    tokenType: string,
    txId: string)

  /** `Inscription`: one validated transaction. */
  datatype Inscription = Inscription(
    action: Action,
    amount: U256,
    dateTime: Instant,
    fromAddress: string,
    inscriptionId: string,
    state: State,
    toAddress: string,
    token: string,
    tokenType: TokenType,
    txId: string)

  /** `PaginationRaw`: one page of the API's answer. `limit` and
      `totalTransaction` are decoded but never read. */
  datatype PaginationRaw = PaginationRaw(
    inscriptionsList: seq<InscriptionRaw>,
    limit: string,
    page: string,
    totalPage: string,
    totalTransaction: string)

  /** `Pagination`: one validated page. */
  datatype Pagination = Pagination(inscriptions: seq<Inscription>, page: I32, totalPages: I32)

  /** `ResponseRaw`: the response envelope. */
  datatype ResponseRaw = ResponseRaw(data: seq<PaginationRaw>)

  /** The five validations of `process_inscription`, in the order it runs
      them, each as the error it would raise or `None`. */
  function FieldChecks(raw: InscriptionRaw): (checks: seq<Option<Error>>)
    ensures |checks| == 5
  {
    [ ErrorOf(ParseAction(raw.actionType)),
      ErrorOf(ParseU256(raw.amount)),
      ErrorOf(UnixToDateTime(raw.time)),
      ErrorOf(ParseState(raw.state)),
      ErrorOf(ParseTokenType(raw.tokenType)) ]
  }

  function ErrorOf<T>(r: Result<T, Error>): Option<Error>
  {
    if r.Err? then Some(r.error) else None
  }

  /** `process_inscription`. It succeeds exactly when all five interpreted
      fields are valid; it then carries their parsed values and copies the
      other fields verbatim. Otherwise it fails with the error of the first
      invalid field. */
  function ProcessInscription(raw: InscriptionRaw): (r: Result<Inscription, Error>)
    ensures r.Ok? <==> ParseAction(raw.actionType).Ok? && ParseU256(raw.amount).Ok?
                       && UnixToDateTime(raw.time).Ok? && ParseState(raw.state).Ok?
                       && ParseTokenType(raw.tokenType).Ok?
    ensures r.Ok? ==>
      && Ok(r.value.action) == ParseAction(raw.actionType)
      && Ok(r.value.amount) == ParseU256(raw.amount)
      && Ok(r.value.dateTime) == UnixToDateTime(raw.time)
      && Ok(r.value.state) == ParseState(raw.state)
      && Ok(r.value.tokenType) == ParseTokenType(raw.tokenType)
      && r.value.fromAddress == raw.fromAddress
      && r.value.inscriptionId == raw.inscriptionId
      && r.value.toAddress == raw.toAddress
      && r.value.token == raw.token
      && r.value.txId == raw.txId
  {
    var action :- ParseAction(raw.actionType);
    var amount :- ParseU256(raw.amount);
    var dateTime :- UnixToDateTime(raw.time);
    var state :- ParseState(raw.state);
    var tokenType :- ParseTokenType(raw.tokenType);
    Ok(Inscription(action, amount, dateTime, raw.fromAddress, raw.inscriptionId,
                   state, raw.toAddress, raw.token, tokenType, raw.txId))
  }

  /** A record that fails validation fails with the error of the first
      invalid field, in the order action, amount, time, state, token type. */
  lemma ProcessInscriptionFirstFailure(raw: InscriptionRaw)
    requires ProcessInscription(raw).Err?
    ensures exists i :: 0 <= i < 5 && FieldChecks(raw)[i] == Some(ProcessInscription(raw).error)
                        && forall j :: 0 <= j < i ==> FieldChecks(raw)[j].None?
  {
    var checks := FieldChecks(raw);
    var i := if checks[0].Some? then 0 else if checks[1].Some? then 1
             else if checks[2].Some? then 2 else if checks[3].Some? then 3 else 4;
    assert checks[i] == Some(ProcessInscription(raw).error);
  }

  /** Mapping `process_inscription` over a list and collecting into one
      `Result`: all records in order, or the error of the first record
      that fails. */
  function ProcessAll(raws: seq<InscriptionRaw>): (r: Result<seq<Inscription>, Error>)
    ensures r.Ok? <==> forall i :: 0 <= i < |raws| ==> ProcessInscription(raws[i]).Ok?
    ensures r.Ok? ==> |r.value| == |raws|
                      && forall i :: 0 <= i < |raws| ==> Ok(r.value[i]) == ProcessInscription(raws[i])
    ensures r.Err? ==> exists i :: 0 <= i < |raws| && ProcessInscription(raws[i]) == Err(r.error)
                                   && forall j :: 0 <= j < i ==> ProcessInscription(raws[j]).Ok?
    decreases |raws|
  {
    if raws == [] then Ok([])
    else
      var first :- ProcessInscription(raws[0]);
      var rest :- ProcessAll(raws[1..]);
      Ok([first] + rest)
  }

  /** `process_pagination`: every record of the page, then the page number,
      then the page count; the first failure fails the whole page with its
      own error. */
  function ProcessPagination(raw: PaginationRaw): (r: Result<Pagination, Error>)
    ensures r.Ok? <==> ProcessAll(raw.inscriptionsList).Ok? && ParseI32(raw.page).Ok?
                       && ParseI32(raw.totalPage).Ok?
    ensures r.Ok? ==> Ok(r.value.inscriptions) == ProcessAll(raw.inscriptionsList)
                      && Ok(r.value.page) == ParseI32(raw.page)
                      && Ok(r.value.totalPages) == ParseI32(raw.totalPage)
    ensures ProcessAll(raw.inscriptionsList).Err? ==> r == Err(ProcessAll(raw.inscriptionsList).error)
    ensures ProcessAll(raw.inscriptionsList).Ok? && ParseI32(raw.page).Err? ==> r == Err(ParseI32(raw.page).error)
    ensures ProcessAll(raw.inscriptionsList).Ok? && ParseI32(raw.page).Ok? && ParseI32(raw.totalPage).Err?
            ==> r == Err(ParseI32(raw.totalPage).error)
    ensures r.Err? ==> r.error != NoPagination && !r.error.FetchError?
  {
    var inscriptions :- ProcessAll(raw.inscriptionsList);
    var page :- ParseI32(raw.page);
    var totalPages :- ParseI32(raw.totalPage);
    Ok(Pagination(inscriptions, page, totalPages))
  }

  /** `process_response`: the first pagination block of the envelope, or
      `NoPagination` when there is none. Blocks after the first are never
      looked at. */
  function ProcessResponse(raw: ResponseRaw): (r: Result<Pagination, Error>)
    ensures r == Err(NoPagination) <==> |raw.data| == 0
    ensures |raw.data| > 0 ==> r == ProcessPagination(raw.data[0])
    ensures r.Err? ==> !r.error.FetchError?
  {
    if |raw.data| == 0 then Err(NoPagination) else ProcessPagination(raw.data[0])
  }
}
