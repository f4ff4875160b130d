/**
 * The electoral list dialog (src/components/ElectoralListModal.tsx): one
 * page of voters at a time, a guard in front of page changes, the reset
 * when the dialog closes, and the download that gathers every page before
 * the roll is drawn. The server is a function from a page number to either
 * that page or the `message` of what it threw; drawing the PDF is an
 * effect carrying the voters and the item count.
 */
module ElectoralList {
  import opened Common

  const LoadFailedMessage: string := "Failed to load electoral list. Please try again."
  const DownloadFailedMessage: string := "Failed to download electoral roll. Please try again."

  datatype Voter = Voter(voterId: int, name: string, idNo: string, formNo: string, slNo: string)

  datatype Pagination = Pagination(
    currentPage: int, totalPages: int, totalItems: int, hasNextPage: bool, hasPreviousPage: bool)

  /** One response of `getElectoralVotes(page)`. */
  datatype VoterPage = VoterPage(voters: seq<Voter>, pagination: Pagination)

  /** A page request: the page, or the message of the thrown value (`None` when it had none). */
  type Server = int -> Result<VoterPage, Option<string>>

  datatype ListState = ListState(
    voters: seq<Voter>, pagination: Option<Pagination>, currentPage: int,
    isLoading: bool, isDownloading: bool, error: Option<string>)

  const InitialList: ListState := ListState([], None, 1, false, false, None)

  // ---------------------------------------------------------------------
  // fetchVoters
  // ---------------------------------------------------------------------

  /** The synchronous start of `fetchVoters`. */
  function FetchStart(s: ListState): (r: ListState)
    ensures r == s.(isLoading := true, error := None)
  {
    s.(isLoading := true, error := None)
  }

  /** `fetchVoters(page)` once the request settles: the page is shown, or an error is, and loading ends. */
  function FetchFinish(s: ListState, page: int, outcome: Result<VoterPage, Option<string>>): (r: ListState)
    ensures !r.isLoading && r.isDownloading == s.isDownloading
    ensures outcome.Success? ==>
              && r.voters == outcome.value.voters && r.pagination == Some(outcome.value.pagination)
              && r.currentPage == page && r.error == s.error
    ensures outcome.Failure? ==>
              && r.voters == s.voters && r.pagination == s.pagination && r.currentPage == s.currentPage
              && r.error == Some(OrElse(outcome.error, LoadFailedMessage)) && r.error.value != ""
  {
    match outcome
    case Success(data) => s.(voters := data.voters, pagination := Some(data.pagination), currentPage := page, isLoading := false)
    case Failure(message) => s.(error := Some(OrElse(message, LoadFailedMessage)), isLoading := false)
  }

  /** A whole fetch: success moves to the page; failure reports and keeps the page that was shown. */
  lemma FetchCycle(s: ListState, page: int, outcome: Result<VoterPage, Option<string>>)
    ensures var r := FetchFinish(FetchStart(s), page, outcome);
            && !r.isLoading
            && (outcome.Success? ==> r.currentPage == page && r.error.None?)
            && (outcome.Failure? ==> r.currentPage == s.currentPage && r.voters == s.voters && r.error.Some?)
  {
  }

  // ---------------------------------------------------------------------
  // Opening and closing
  // ---------------------------------------------------------------------

  /**
   * The effect on `isOpen`: opening starts a fetch of page 1 (returned as
   * the page to request); closing clears the list, the pagination, the
   * page number and the error.
   */
  function OpenChanged(s: ListState, isOpen: bool): (r: (ListState, Option<int>))
    ensures isOpen ==> r == (FetchStart(s), Some(1))
    ensures !isOpen ==> r.1.None?
    ensures !isOpen ==>
              && r.0.voters == [] && r.0.pagination.None? && r.0.currentPage == 1 && r.0.error.None?
              && r.0.isLoading == s.isLoading && r.0.isDownloading == s.isDownloading
  {
    if isOpen then (FetchStart(s), Some(1))
    else (s.(voters := [], pagination := None, currentPage := 1, error := None), None)
  }

  /** Closing forgets everything the dialog had loaded, whatever state it was in. */
  lemma CloseForgets(s: ListState, s': ListState)
    requires s.isLoading == s'.isLoading && s.isDownloading == s'.isDownloading
    ensures OpenChanged(s, false) == OpenChanged(s', false)
  {
  }

  // ---------------------------------------------------------------------
  // Page changes
  // ---------------------------------------------------------------------

  /** The bounds check of `handlePageChange`. */
  predicate PageInRange(s: ListState, page: int) {
    page >= 1 && s.pagination.Some? && page <= s.pagination.value.totalPages
  }

  /** `handlePageChange(page)`: a fetch starts only for a page within the known range. */
  function HandlePageChange(s: ListState, page: int): (r: (ListState, Option<int>))
    ensures r.1.Some? <==> PageInRange(s, page)
    ensures r.1.Some? ==> r.1.value == page && r.0 == FetchStart(s)
    ensures r.1.None? ==> r.0 == s
  {
    if PageInRange(s, page) then (FetchStart(s), Some(page)) else (s, None)
  }

  /** The pagination bar is shown only for more than one page. */
  predicate PagerShown(s: ListState) {
    s.pagination.Some? && s.pagination.value.totalPages > 1
  }

  /** The Previous button is on screen and not disabled. */
  predicate PreviousEnabled(s: ListState) {
    PagerShown(s) && s.pagination.value.hasPreviousPage && !s.isLoading
  }

  /** The Next button is on screen and not disabled. */
  predicate NextEnabled(s: ListState) {
    PagerShown(s) && s.pagination.value.hasNextPage && !s.isLoading
  }

  /** The server's flags agree with its page numbers, and the page shown is the one it reported. */
  predicate PagerAgrees(s: ListState) {
    && s.pagination.Some?
    && var p := s.pagination.value;
    && s.currentPage == p.currentPage && 1 <= p.currentPage <= p.totalPages
    && (p.hasPreviousPage ==> p.currentPage > 1)
    && (p.hasNextPage ==> p.currentPage < p.totalPages)
  }

  /** When the server is consistent, an enabled button always leads to a fetch of the neighbouring page. */
  lemma EnabledButtonsFetch(s: ListState)
    requires PagerAgrees(s)
    ensures PreviousEnabled(s) ==> HandlePageChange(s, s.currentPage - 1).1 == Some(s.currentPage - 1)
    ensures NextEnabled(s) ==> HandlePageChange(s, s.currentPage + 1).1 == Some(s.currentPage + 1)
  {
  }

  /** While a page is loading neither button can start another fetch. */
  lemma NoNavigationWhileLoading(s: ListState)
    requires s.isLoading
    ensures !PreviousEnabled(s) && !NextEnabled(s)
  {
  }

  // ---------------------------------------------------------------------
  // handleDownloadPDF
  // ---------------------------------------------------------------------

  /** The voters of pages `first` to `last`, in page order, or the message of the first failing request. */
  function Gather(server: Server, first: int, last: int): (r: Result<seq<Voter>, Option<string>>)
    ensures r.Failure? ==> exists p :: first <= p <= last && server(p).Failure? && server(p).error == r.error
    ensures r.Success? ==> (forall p :: first <= p <= last ==> server(p).Success?)
    decreases last - first
  {
    if first > last then Success([])
    else
      match server(first)
      case Failure(message) => Failure(message)
      case Success(page) =>
        match Gather(server, first + 1, last)
        case Failure(message) => Failure(message)
        case Success(rest) => Success(page.voters + rest)
  }

  lemma {:induction false} GatherExtend(server: Server, first: int, last: int)
    requires first <= last + 1 && Gather(server, first, last).Success? && server(last + 1).Success?
    ensures Gather(server, first, last + 1) == Success(Gather(server, first, last).value + server(last + 1).value.voters)
    decreases last - first
  {
    var added := server(last + 1).value.voters;
    if first <= last {
      GatherExtend(server, first + 1, last);
      var head := server(first).value.voters;
      var rest := Gather(server, first + 1, last).value;
      assert Gather(server, first, last).value == head + rest;
      assert Gather(server, first + 1, last + 1).value == rest + added;
      assert head + (rest + added) == head + rest + added;
    } else {
      assert Gather(server, first + 1, last + 1) == Success([]);
      assert added + [] == [] + added;
    }
  }

  lemma {:induction false} GatherStopsAt(server: Server, first: int, last: int, stop: int)
    requires first <= stop <= last && Gather(server, first, stop - 1).Success? && server(stop).Failure?
    ensures Gather(server, first, last) == Failure(server(stop).error)
    decreases stop - first
  {
    if first < stop {
      GatherStopsAt(server, first + 1, last, stop);
    }
  }

  /** What the page requests of a download end in. */
  datatype DownloadOutcome =
    | RollGenerated(voters: seq<Voter>, totalItems: int)   // `generateElectoralRollPDF(allVoters, total_items)`
    | DownloadFailed(message: Option<string>)              // the `message` of the first request that threw

  /**
   * The synchronous start of `handleDownloadPDF`: without pagination the
   * handler returns at once; otherwise the download flag is raised, the
   * error cleared, and the pagination of that moment is the one the rest
   * of the handler reads.
   */
  function DownloadStart(s: ListState): (r: (ListState, Option<Pagination>))
    ensures s.pagination.None? ==> r == (s, None)
    ensures s.pagination.Some? ==>
              && r.1 == s.pagination
              && r.0.isDownloading && r.0.error.None?
              && r.0 == s.(isDownloading := r.0.isDownloading, error := r.0.error)
  {
    if s.pagination.None? then (s, None)
    else (s.(isDownloading := true, error := None), s.pagination)
  }

  /**
   * The awaited part of `handleDownloadPDF`: request pages 1 to
   * `total_pages` one after the other, appending each page's voters; the
   * first failed request ends the loop with its message.
   */
  method DownloadPages(server: Server, captured: Pagination) returns (outcome: DownloadOutcome)
    ensures var gathered := Gather(server, 1, captured.totalPages);
            && (gathered.Success? <==> outcome.RollGenerated?)
            && (gathered.Success? ==> outcome == RollGenerated(gathered.value, captured.totalItems))
            && (gathered.Failure? ==> outcome == DownloadFailed(gathered.error))
  {
    var totalPages := captured.totalPages;
    var allVoters: seq<Voter> := [];
    var page := 1;
    while page <= totalPages
      invariant 1 <= page <= (if totalPages < 1 then 1 else totalPages + 1)
      invariant Gather(server, 1, page - 1) == Success(allVoters)
      decreases totalPages - page
    {
      match server(page)
      case Failure(message) =>
        GatherStopsAt(server, 1, totalPages, page);
        return DownloadFailed(message);
      case Success(data) =>
        GatherExtend(server, 1, page - 1);
        allVoters := allVoters + data.voters;
        page := page + 1;
    }
    outcome := RollGenerated(allVoters, captured.totalItems);
  }

  /**
   * The `catch` and `finally` of `handleDownloadPDF`, applied to the state
   * current when the last request settles: the download flag drops and a
   * failure shows its message or the fixed fallback; a success leaves the
   * error, the list and the page as other handlers have left them.
   */
  function DownloadFinish(s: ListState, outcome: DownloadOutcome): (r: ListState)
    ensures !r.isDownloading
    ensures outcome.DownloadFailed? ==>
              r.error == Some(OrElse(outcome.message, DownloadFailedMessage)) && r.error.value != ""
    ensures outcome.RollGenerated? ==> r.error == s.error
    ensures r.voters == s.voters && r.pagination == s.pagination && r.currentPage == s.currentPage
    ensures r.isLoading == s.isLoading
  {
    match outcome
    case RollGenerated(_, _) => s.(isDownloading := false)
    case DownloadFailed(message) => s.(isDownloading := false, error := Some(OrElse(message, DownloadFailedMessage)))
  }

  /**
   * A download with no other handler settling in between: the roll holds
   * the voters of pages 1 to total pages in order and no error shows, or
   * the first failure's message does; the list and page on screen stay.
   */
  method DownloadAll(s: ListState, server: Server) returns (r: ListState, outcome: Option<DownloadOutcome>)
    ensures s.pagination.None? ==> r == s && outcome.None?
    ensures s.pagination.Some? ==>
              var gathered := Gather(server, 1, s.pagination.value.totalPages);
              && outcome.Some? && !r.isDownloading
              && r.voters == s.voters && r.pagination == s.pagination && r.currentPage == s.currentPage
              && r.isLoading == s.isLoading
              && (gathered.Success? ==>
                    outcome.value == RollGenerated(gathered.value, s.pagination.value.totalItems) && r.error.None?)
              && (gathered.Failure? ==>
                    outcome.value.DownloadFailed? && r.error == Some(OrElse(gathered.error, DownloadFailedMessage)))
  {
    var (started, captured) := DownloadStart(s);
    if captured.None? {
      return started, None;
    }
    var settled := DownloadPages(server, captured.value);
    r := DownloadFinish(started, settled);
    outcome := Some(settled);
  }

  /**
   * The download does not lock the dialog: a page change may start and
   * fail while its requests are pending, and a download that then
   * succeeds leaves that page's error on screen.
   */
  lemma PageFailureOutlivesDownload(s: ListState, page: int, message: Option<string>, voters: seq<Voter>, totalItems: int)
    requires s.pagination.Some? && !s.isLoading && PageInRange(s, page)
    ensures var downloading := DownloadStart(s).0;
            var changed := HandlePageChange(downloading, page);
            var failed := FetchFinish(changed.0, page, Failure(message));
            var r := DownloadFinish(failed, RollGenerated(voters, totalItems));
            && changed.1 == Some(page)
            && r.error == Some(OrElse(message, LoadFailedMessage)) && !r.isDownloading && !r.isLoading
  {
  }

  /** When every page loads, the roll holds the pages' voters in page order: page 1 first, then page 2, and so on. */
  lemma {:induction false} GatherIsConcatenation(server: Server, first: int, last: int, p: int)
    requires first <= p <= last && Gather(server, first, last).Success?
    ensures Gather(server, first, p).Success? && Gather(server, p + 1, last).Success?
    ensures Gather(server, first, last).value == Gather(server, first, p).value + Gather(server, p + 1, last).value
    decreases p - first
  {
    if first < p {
      GatherIsConcatenation(server, first + 1, last, p);
      var head := server(first).value.voters;
      assert head + (Gather(server, first + 1, p).value + Gather(server, p + 1, last).value)
          == head + Gather(server, first + 1, p).value + Gather(server, p + 1, last).value;
    }
  }
}
