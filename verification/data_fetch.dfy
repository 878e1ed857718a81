/** The two query helpers of `src/services/apiGetData.js`: the attempt loop
    of `executeSupabaseQuery` and the page accumulation of
    `fetchPaginatedData`. The query itself is a parameter: what its k-th
    call does, or what each page request returns. Delays are not modelled. */
module DataFetch {
  import opened Common

  // ---------------------------------------------------------------------
  // executeSupabaseQuery

  /** One call of the query function: it returned a result or threw. */
  datatype Attempt<R, E> = Returned(result: R) | Threw(error: E)

  /** The helper's outcome: the first returned result, or the last error
      rethrown (`undefined` when no attempt was made). */
  datatype QueryOutcome<R, E> = Result(value: R) | Rethrown(lastError: Option<E>)

  method ExecuteQuery<R, E>(call: nat -> Attempt<R, E>, retries: int) returns (out: QueryOutcome<R, E>, attempts: nat)
    ensures attempts <= if retries < 0 then 0 else retries
    ensures forall k :: 0 <= k < attempts - 1 ==> call(k).Threw?
    ensures out.Result? ==> attempts >= 1 && call(attempts - 1) == Returned(out.value)
    ensures out.Rethrown? ==> attempts == (if retries < 0 then 0 else retries)
                              && (attempts > 0 ==> call(attempts - 1).Threw?
                                                   && out.lastError == Some(call(attempts - 1).error))
                              && (attempts == 0 ==> out.lastError == None)
  {
    var lastError: Option<E> := None;
    var attempt: nat := 0;
    while attempt < retries
      invariant attempt <= if retries < 0 then 0 else retries
      invariant forall k :: 0 <= k < attempt ==> call(k).Threw?
      invariant attempt == 0 ==> lastError == None
      invariant attempt > 0 ==> lastError == Some(call(attempt - 1).error)
    {
      match call(attempt)
      case Returned(r) =>
        return Result(r), attempt + 1;
      case Threw(e) =>
        lastError := Some(e);
      attempt := attempt + 1;
    }
    return Rethrown(lastError), attempt;
  }

  // ---------------------------------------------------------------------
  // fetchPaginatedData

  /** What one `range(from, to)` request gave: rows, an error object, or an
      exception from the query helper. Requests past the end of `pages`
      return no rows. */
  datatype PageResponse<T> = PageRows(rows: seq<T>) | PageError | PageThrew

  function PageAt<T>(pages: seq<PageResponse<T>>, i: nat): PageResponse<T> {
    if i < |pages| then pages[i] else PageRows([])
  }

  /** The rows the loop collects from page `i` on with no record limit, and
      whether it ends with an exception. It stops at an error, an empty
      page or a page shorter than `pageSize`; the short page's rows count. */
  function Leading<T>(pages: seq<PageResponse<T>>, i: nat, pageSize: nat): (r: (seq<T>, bool))
    decreases |pages| - i
  {
    if i >= |pages| then ([], false)
    else match pages[i]
      case PageThrew => ([], true)
      case PageError => ([], false)
      case PageRows(rows) =>
        if |rows| == 0 then ([], false)
        else if |rows| < pageSize then (rows, false)
        else
          var rest := Leading(pages, i + 1, pageSize);
          (rows + rest.0, rest.1)
  }

  datatype Paged<T> = Data(data: seq<T>) | Exception

  /** Applies the record limit (`maxRecords`; zero means none): the rows are
      cut to the limit, and an exception is only reached when the rows
      before it stay under the limit. */
  function Capped<T>(rows: seq<T>, threw: bool, maxRecords: nat): Paged<T> {
    if threw && (maxRecords == 0 || |rows| < maxRecords) then Exception
    else Data(if maxRecords > 0 then Take(rows, maxRecords) else rows)
  }

  /** What `fetchPaginatedData` yields for the given page responses. */
  function Expected<T>(pages: seq<PageResponse<T>>, pageSize: nat, maxRecords: nat): Paged<T> {
    var lead := Leading(pages, 0, pageSize);
    Capped(lead.0, lead.1, maxRecords)
  }

  method FetchPaginated<T>(pages: seq<PageResponse<T>>, pageSize: nat, maxRecords: nat)
    returns (data: seq<T>, threw: bool)
    ensures threw <==> Expected(pages, pageSize, maxRecords).Exception?
    ensures !threw ==> Expected(pages, pageSize, maxRecords) == Data(data)
  {
    var allData: seq<T> := [];
    var page: nat := 0;
    var hasMore := true;
    while hasMore && (maxRecords == 0 || |allData| < maxRecords)
      invariant page <= |pages|
      invariant hasMore ==> maxRecords == 0 || |allData| < maxRecords
      invariant hasMore ==> Pending(pages, page, pageSize, allData, maxRecords)
      invariant !hasMore ==> Data(allData) == Expected(pages, pageSize, maxRecords)
      decreases (if hasMore then 1 else 0) + |pages| - page
    {
      var response := PageAt(pages, page);
      if response.PageThrew? {
        return [], true;
      }
      if response.PageError? || |response.rows| == 0 {
        assert allData + [] == allData;
        break;
      }
      var rows := response.rows;
      PendingStep(pages, page, pageSize, allData, maxRecords);
      allData := allData + rows;
      page := page + 1;
      if |rows| < pageSize {
        hasMore := false;
      }
      if maxRecords > 0 && |allData| >= maxRecords {
        var lead := Leading(pages, page, pageSize);
        CapReached(allData, if hasMore then lead.0 else [], hasMore && lead.1, maxRecords);
        assert allData + [] == allData;
        allData := allData[..maxRecords];
        hasMore := false;
      }
    }
    return allData, false;
  }

  /** The loop state before requesting page `page`: what is collected so
      far, followed by what the remaining pages give, yields the result. */
  ghost predicate Pending<T>(pages: seq<PageResponse<T>>, page: nat, pageSize: nat, allData: seq<T>, maxRecords: nat) {
    var lead := Leading(pages, page, pageSize);
    Capped(allData + lead.0, lead.1, maxRecords) == Expected(pages, pageSize, maxRecords)
  }

  lemma PendingStep<T>(pages: seq<PageResponse<T>>, page: nat, pageSize: nat, allData: seq<T>, maxRecords: nat)
    requires Pending(pages, page, pageSize, allData, maxRecords)
    requires page < |pages| && pages[page].PageRows? && |pages[page].rows| > 0
    ensures |pages[page].rows| < pageSize ==>
      Capped(allData + pages[page].rows, false, maxRecords) == Expected(pages, pageSize, maxRecords)
    ensures |pages[page].rows| >= pageSize ==>
      Pending(pages, page + 1, pageSize, allData + pages[page].rows, maxRecords)
  {
    var rows := pages[page].rows;
    var rest := Leading(pages, page + 1, pageSize);
    assert allData + (rows + rest.0) == (allData + rows) + rest.0;
  }

  /** Once the collected rows reach the record limit, the rest no longer
      matters. */
  lemma CapReached<T>(allData: seq<T>, more: seq<T>, threw: bool, maxRecords: nat)
    requires 0 < maxRecords <= |allData|
    ensures Capped(allData + more, threw, maxRecords) == Data(allData[..maxRecords])
  {
    assert (allData + more)[..maxRecords] == allData[..maxRecords];
  }

  /** Every row of every page, pages without rows counting as empty. */
  function AllRows<T>(pages: seq<PageResponse<T>>): seq<T> {
    if |pages| == 0 then []
    else (if pages[0].PageRows? then pages[0].rows else []) + AllRows(pages[1..])
  }

  lemma {:induction false} LeadingIsPrefix<T>(pages: seq<PageResponse<T>>, i: nat, pageSize: nat)
    requires i <= |pages|
    ensures IsPrefix(Leading(pages, i, pageSize).0, AllRows(pages[i..]))
    decreases |pages| - i
  {
    if i < |pages| {
      assert pages[i..][1..] == pages[i + 1..];
      LeadingIsPrefix(pages, i + 1, pageSize);
    }
  }

  /** The result is a prefix of the rows of the pages in order, and never
      longer than a non-zero record limit. */
  lemma PaginatedPrefixAndBound<T>(pages: seq<PageResponse<T>>, pageSize: nat, maxRecords: nat)
    requires Expected(pages, pageSize, maxRecords).Data?
    ensures IsPrefix(Expected(pages, pageSize, maxRecords).data, AllRows(pages))
    ensures maxRecords > 0 ==> |Expected(pages, pageSize, maxRecords).data| <= maxRecords
  {
    LeadingIsPrefix(pages, 0, pageSize);
    assert pages[0..] == pages;
  }

  /** Full pages are all kept: when every page is full and the total stays
      under the limit, the result is every row of every page. */
  lemma {:induction false} FullPagesAllKept<T>(pages: seq<PageResponse<T>>, i: nat, pageSize: nat)
    requires i <= |pages|
    requires forall k :: i <= k < |pages| ==> pages[k].PageRows? && |pages[k].rows| == pageSize > 0
    ensures Leading(pages, i, pageSize) == (AllRows(pages[i..]), false)
    decreases |pages| - i
  {
    if i < |pages| {
      assert pages[i..][1..] == pages[i + 1..];
      assert forall k :: i + 1 <= k < |pages| ==> pages[k].PageRows? && |pages[k].rows| == pageSize > 0;
      FullPagesAllKept(pages, i + 1, pageSize);
    }
  }
}
