/** The pagination walk of `fetch_pages`: request API page 1, 2, ... in
    turn, append each normalised page's inscriptions to the caller's list,
    and stop after the first page whose reported number equals the reported
    page count, or at the first error. */
module Walker {
  import opened Wrappers
  import opened Records

  /** The HTTP request for one API page together with the decoding of its
      JSON body: the response envelope for a 1-based page number, or the
      transport or decoding error. */
  type Fetch = nat -> Result<ResponseRaw, Error>

  /** What call `k` of the walk (counted from 0) obtains: API page `k + 1`,
      normalised. */
  function Step(fetch: Fetch, k: nat): Result<Pagination, Error>
  {
    var raw :- fetch(k + 1);
    ProcessResponse(raw)
  }

  /** The results of the successive calls, call `k` first. */
  type Steps = nat -> Result<Pagination, Error>

  function StepsOf(fetch: Fetch): Steps
  {
    (k: nat) => Step(fetch, k)
  }

  /** The walk ends with call `k`: it failed, or it reported the last page. */
  predicate Final(steps: Steps, k: nat)
  {
    steps(k).Err? || steps(k).value.page == steps(k).value.totalPages
  }

  /** `steps` lists what each call obtains from `fetch`. */
  ghost predicate Agrees(fetch: Fetch, steps: Steps)
  {
    forall k {:trigger Step(fetch, k)} :: steps(k) == Step(fetch, k)
  }

  /** What a walk leaves behind: the inscriptions it appended, and the error
      it stopped with, if any. */
  datatype WalkResult = WalkResult(appended: seq<Inscription>, failure: Option<Error>)

  /** The walk from call `k`, in the recursive form of the source. Nothing
      in the source bounds the number of calls, so the walk is defined for
      a `stop` after which it certainly ends; its value does not depend on
      which such `stop` is given (`WalkStopIrrelevant`). */
  function WalkFrom(steps: Steps, k: nat, stop: nat): WalkResult
    requires k <= stop && Final(steps, stop)
    decreases stop - k
  {
    match steps(k)
    case Err(e) => WalkResult([], Some(e))
    case Ok(pg) =>
      if pg.page == pg.totalPages then WalkResult(pg.inscriptions, None)
      else
        var rest := WalkFrom(steps, k + 1, stop);
        WalkResult(pg.inscriptions + rest.appended, rest.failure)
  }

  /** The call the walk from `k` ends with: the first final call. */
  function StopIndex(steps: Steps, k: nat, stop: nat): (n: nat)
    requires k <= stop && Final(steps, stop)
    ensures k <= n <= stop && Final(steps, n)
    ensures forall j :: k <= j < n ==> !Final(steps, j)
    decreases stop - k
  {
    if Final(steps, k) then k else StopIndex(steps, k + 1, stop)
  }

  /** The inscriptions of the successful calls `k` to `n - 1`, in call
      order. */
  function PagesBetween(steps: Steps, k: nat, n: nat): seq<Inscription>
    requires forall j :: k <= j < n ==> steps(j).Ok?
    decreases n - k
  {
    if k >= n then [] else steps(k).value.inscriptions + PagesBetween(steps, k + 1, n)
  }

  lemma {:induction false} PagesBetweenSnoc(steps: Steps, k: nat, n: nat)
    requires k <= n
    requires forall j :: k <= j < n ==> steps(j).Ok?
    requires steps(n).Ok?
    ensures PagesBetween(steps, k, n + 1) == PagesBetween(steps, k, n) + steps(n).value.inscriptions
    decreases n - k
  {
    if k < n {
      PagesBetweenSnoc(steps, k + 1, n);
    }
  }

  /** The walk, characterised without recursion: with `n` the first final
      call, every call before `n` succeeded on a page that was not the last,
      their pages are appended in order, and then either call `n` failed and
      its error is the result, or call `n` reported the last page and its
      inscriptions are appended too. */
  lemma {:induction false} WalkSpec(steps: Steps, k: nat, stop: nat)
    requires k <= stop && Final(steps, stop)
    ensures var n := StopIndex(steps, k, stop);
      && (forall j :: k <= j < n ==> steps(j).Ok? && steps(j).value.page != steps(j).value.totalPages)
      && (steps(n).Err? ==> WalkFrom(steps, k, stop) == WalkResult(PagesBetween(steps, k, n), Some(steps(n).error)))
      && (steps(n).Ok? ==> WalkFrom(steps, k, stop) == WalkResult(PagesBetween(steps, k, n) + steps(n).value.inscriptions, None))
    decreases stop - k
  {
    if !Final(steps, k) {
      WalkSpec(steps, k + 1, stop);
      assert StopIndex(steps, k, stop) == StopIndex(steps, k + 1, stop);
    }
  }

  /** Which bound is given does not change the walk. */
  lemma {:induction false} WalkStopIrrelevant(steps: Steps, k: nat, stop1: nat, stop2: nat)
    requires k <= stop1 && Final(steps, stop1)
    requires k <= stop2 && Final(steps, stop2)
    ensures WalkFrom(steps, k, stop1) == WalkFrom(steps, k, stop2)
    decreases stop1 - k
  {
    if !Final(steps, k) {
      WalkStopIrrelevant(steps, k + 1, stop1, stop2);
    }
  }

  /** Walks whose calls agree up to the one the first walk ends with are
      equal. */
  lemma {:induction false} WalkAgree(steps: Steps, other: Steps, k: nat, stop: nat)
    requires k <= stop && Final(steps, stop)
    requires forall j :: k <= j <= StopIndex(steps, k, stop) ==> other(j) == steps(j)
    ensures Final(other, StopIndex(steps, k, stop))
    ensures WalkFrom(other, k, StopIndex(steps, k, stop)) == WalkFrom(steps, k, stop)
    decreases stop - k
  {
    var n := StopIndex(steps, k, stop);
    assert other(n) == steps(n);
    if !Final(steps, k) {
      assert StopIndex(steps, k + 1, stop) == n;
      WalkAgree(steps, other, k + 1, stop);
      assert other(k) == steps(k);
    }
  }

  /** The walk reads API pages `k + 1` to `n + 1` only, `n` being the call it
      ends with: a fetch that answers those pages alike gives the same walk,
      whatever it answers for later pages. */
  lemma WalkLocality(fetch: Fetch, other: Fetch, k: nat, stop: nat)
    requires k <= stop && Final(StepsOf(fetch), stop)
    requires forall page :: k + 1 <= page <= StopIndex(StepsOf(fetch), k, stop) + 1 ==> other(page) == fetch(page)
    ensures Final(StepsOf(other), StopIndex(StepsOf(fetch), k, stop))
    ensures WalkFrom(StepsOf(other), k, StopIndex(StepsOf(fetch), k, stop)) == WalkFrom(StepsOf(fetch), k, stop)
  {
    var n := StopIndex(StepsOf(fetch), k, stop);
    forall j | k <= j <= n ensures StepsOf(other)(j) == StepsOf(fetch)(j) {
      assert other(j + 1) == fetch(j + 1);
    }
    WalkAgree(StepsOf(fetch), StepsOf(other), k, stop);
  }

  /** The caller's `Vec<Inscription>`, which `fetch_pages` extends in place. */
  class InscriptionList {
    var items: seq<Inscription>

    constructor ()
      ensures items == []
    {
      items := [];
    }

    /** `Vec::extend`. */
    method Extend(more: seq<Inscription>)
      modifies this
      ensures items == old(items) + more
    {
      items := items + more;
    }
  }

  /** The body of one round of `fetch_pages`: request API page `p + 1`,
      then normalise the envelope; a transport or decoding error is passed
      on unchanged. The ghost result `asked` is the page number handed to
      `fetch`. */
  method FetchPage(fetch: Fetch, p: nat, ghost steps: Steps)
    returns (s: Result<Pagination, Error>, ghost asked: nat)
    requires Agrees(fetch, steps)
    ensures asked == p + 1
    ensures s == steps(p)
  {
    var apiPage := p + 1;
    asked := apiPage;
    var response := fetch(apiPage);
    if response.Err? {
      assert Step(fetch, p) == Err(response.error);
      return Err(response.error), asked;
    }
    s := ProcessResponse(response.value);
    assert Step(fetch, p) == s;
  }

  /** `fetch_pages`, with its self-call written as a loop over the 0-based
      counter `p`. Call `p` requests API page `p + 1`; the ghost result
      `requested` lists the page numbers handed to `fetch`, in order. The ghost `steps`
      names what each call obtains. The accumulator keeps what was appended
      before an error, as the source's does. */
  method FetchPages(fetch: Fetch, inscriptions: InscriptionList, page: nat,
                    ghost steps: Steps, ghost stop: nat)
    returns (r: Result<InscriptionList, Error>, ghost requested: seq<nat>)
    requires Agrees(fetch, steps)
    requires page <= stop && Final(steps, stop)
    modifies inscriptions
    ensures var w := WalkFrom(steps, page, stop);
      && inscriptions.items == old(inscriptions.items) + w.appended
      && (r.Ok? <==> w.failure.None?)
      && (r.Ok? ==> r.value == inscriptions)
      && (r.Err? ==> w.failure == Some(r.error))
    ensures |requested| == StopIndex(steps, page, stop) - page + 1
    ensures forall i :: 0 <= i < |requested| ==> requested[i] == page + i + 1
  {
    ghost var n := StopIndex(steps, page, stop);
    var p := page;
    ghost var appended: seq<Inscription> := [];
    requested := [];
    while true
      invariant page <= p <= n
      invariant forall j :: page <= j < p ==> steps(j).Ok?
      invariant appended == PagesBetween(steps, page, p)
      invariant inscriptions.items == old(inscriptions.items) + appended
      invariant |requested| == p - page
      invariant forall i :: 0 <= i < |requested| ==> requested[i] == page + i + 1
      decreases n - p
    {
      var pagination, asked := FetchPage(fetch, p, steps);
      requested := requested + [asked];
      if pagination.Err? {
        assert Final(steps, p);
        assert p == n;
        WalkSpec(steps, page, stop);
        return Err(pagination.error), requested;
      }
      assert steps(p).Ok?;
      PagesBetweenSnoc(steps, page, p);
      inscriptions.Extend(pagination.value.inscriptions);
      appended := appended + pagination.value.inscriptions;
      if pagination.value.page == pagination.value.totalPages {
        assert Final(steps, p);
        assert p == n;
        WalkSpec(steps, page, stop);
        return Ok(inscriptions), requested;
      }
      assert !Final(steps, p);
      p := p + 1;
    }
  }
}
