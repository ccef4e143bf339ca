/**
 * The client's paging state (src/lib/composables/useManageItems.ts): the
 * signals `items`, `pagination`, `loading`, `error` and `currentPage`, and
 * the two operations that update them, `fetchItems` and `loadMore`. The
 * network call is a parameter: a function from the request's query
 * parameters to what the `fetch` produced.
 */
module ManageItems {
  import opened Wrappers
  import opened Text
  import opened Values
  import opened Http
  import opened TokenAuth
  import opened Items

  /**
   * What `fetch` and `response.json()` produce: the handler's response, or
   * an error they threw, with its message.
   */
  datatype FetchOutcome = Received(response: Response<Listing>) | Thrown(message: string)

  /** The items endpoint as the client reaches it. */
  type Server = map<string, string> -> FetchOutcome

  /** Every request asks for pages of 5. */
  const PageSize := 5

  /** `/api/items?page=${page}&limit=5`. */
  function RequestQuery(page: int): (q: map<string, string>)
    ensures q.Keys == {"page", "limit"} && q["limit"] == "5"
  {
    map["page" := IntToString(page), "limit" := "5"]
  }

  /** The message of the TypeError `json.data.items` throws when the answer carries no `data`. */
  const MissingDataMessage := "Cannot read properties of undefined (reading 'items')"

  /**
   * What the `try` block ends with: the listing, or the message the `catch`
   * stores, where an empty message becomes "Unknown error".
   */
  function FetchData(outcome: FetchOutcome): (d: Result<Listing, string>)
    ensures d.Failure? ==> d.error != ""
    ensures d.Success? <==> outcome.Received? && Ok(outcome.response) && outcome.response.data.Some?
    ensures d.Success? ==> d.value == outcome.response.data.value
    ensures outcome.Received? && !Ok(outcome.response) ==> d == Failure("Failed to fetch items")
    ensures outcome.Thrown? ==> d == Failure(if outcome.message == "" then "Unknown error" else outcome.message)
  {
    match outcome
    case Thrown(message) => Failure(if message == "" then "Unknown error" else message)
    case Received(r) =>
      if !Ok(r) then Failure("Failed to fetch items")
      else if r.data.None? then Failure(MissingDataMessage)
      else Success(r.data.value)
  }

  /** The five signals. */
  datatype ViewState = ViewState(
    items: seq<Doc>,
    pagination: Option<Pagination>,
    currentPage: int,
    loading: bool,
    error: Option<string>)

  /** The signals' initial values. */
  const Initial := ViewState([], None, 1, false, None)

  /**
   * The signals once `fetchItems(page, append)` has finished: on success
   * the page's items replace the list or are appended to it, the
   * pagination is the answer's and the current page is `page`; on failure
   * only the error changes. Either way the error cleared at the start is
   * the only one left, and loading is over.
   */
  function Fetched(s: ViewState, page: int, append: bool, outcome: FetchOutcome): (r: ViewState)
    ensures !r.loading
    ensures r.error.None? <==> FetchData(outcome).Success?
    ensures r.error.Some? ==> r.error.value != ""
  {
    match FetchData(outcome)
    case Success(listing) =>
      ViewState(if append then s.items + listing.items else listing.items, Some(listing.pagination), page, false, None)
    case Failure(message) =>
      s.(loading := false, error := Some(message))
  }

  /**
   * `loadMore`: the next page, appended, only when the last answer said
   * there is more. It never drops an item already shown and advances by at
   * most one page.
   */
  function LoadedMore(s: ViewState, server: Server): (r: ViewState)
    ensures |s.items| <= |r.items| && r.items[..|s.items|] == s.items
    ensures r.currentPage == s.currentPage || r.currentPage == s.currentPage + 1
  {
    if s.pagination.Some? && s.pagination.value.hasMore then
      var r := Fetched(s, s.currentPage + 1, true, server(RequestQuery(s.currentPage + 1)));
      assert r.items == s.items || r.items == s.items + FetchData(server(RequestQuery(s.currentPage + 1))).value.items;
      r
    else s
  }

  /** The signals of one `useManageItems()` call. */
  class ItemsView {
    var items: seq<Doc>
    var pagination: Option<Pagination>
    var currentPage: int
    var loading: bool
    var error: Option<string>

    function State(): ViewState
      reads this
    {
      ViewState(items, pagination, currentPage, loading, error)
    }

    /** No items, no pagination, page 1, not loading, no error. */
    constructor()
      ensures State() == Initial
    {
      items := [];
      pagination := None;
      currentPage := 1;
      loading := false;
      error := None;
    }

    /** `fetchItems(page, append)`, one signal update at a time. */
    method FetchItems(page: int, append: bool, server: Server)
      modifies this
      ensures State() == Fetched(old(State()), page, append, server(RequestQuery(page)))
    {
      loading := true;
      error := None;
      var outcome := server(RequestQuery(page));
      match outcome {
        case Thrown(message) =>
          error := Some(if message == "" then "Unknown error" else message);
        case Received(response) =>
          if !Ok(response) {
            error := Some("Failed to fetch items");
          } else if response.data.None? {
            error := Some(MissingDataMessage);
          } else {
            var newItems := response.data.value.items;
            items := if append then items + newItems else newItems;
            pagination := Some(response.data.value.pagination);
            currentPage := page;
          }
      }
      loading := false;
    }

    /** `loadMore()`. */
    method LoadMore(server: Server)
      modifies this
      ensures State() == LoadedMore(old(State()), server)
    {
      var page := currentPage + 1;
      if pagination.Some? && pagination.value.hasMore {
        FetchItems(page, true, server);
      }
    }
  }

  /**
   * A fetch that fails keeps the list, the pagination and the current page,
   * ends loading and leaves a non-empty error; one that succeeds clears the
   * error and either replaces the list or extends it with the new items in
   * order.
   */
  lemma FetchEffects(s: ViewState, page: int, append: bool, outcome: FetchOutcome)
    ensures var t := Fetched(s, page, append, outcome);
      && !t.loading
      && (FetchData(outcome).Failure? ==>
            t.items == s.items && t.pagination == s.pagination && t.currentPage == s.currentPage
            && t.error.Some? && t.error.value != "")
      && (FetchData(outcome).Success? ==>
            && t.error == None && t.currentPage == page
            && t.pagination == Some(outcome.response.data.value.pagination)
            && (append ==> t.items[..|s.items|] == s.items && t.items[|s.items|..] == outcome.response.data.value.items)
            && (!append ==> t.items == outcome.response.data.value.items))
  {
    var t := Fetched(s, page, append, outcome);
    if FetchData(outcome).Success? && append {
      assert t.items == s.items + outcome.response.data.value.items;
    }
  }

  /** `loadMore` does nothing unless the last pagination reported more. */
  lemma LoadMoreGated(s: ViewState, server: Server)
    requires s.pagination.None? || !s.pagination.value.hasMore
    ensures LoadedMore(s, server) == s
  {
  }

  /** The server reads a request's page and limit as sent: the page (at least 1) and 5. */
  lemma RequestQueryParams(page: int)
    requires page >= 1
    ensures PageParam(RequestQuery(page)) == Some(page)
    ensures LimitParam(RequestQuery(page)) == Some(PageSize)
  {
    var q := RequestQuery(page);
    PageParamOf(q, page);
    ParseIntToString(5);
    assert IntToString(5) == "5";
  }

  /**
   * The view shows pages 1 to `currentPage` of `owner`'s listing, as read
   * in turn, with the last page's pagination.
   */
  predicate InSync(s: ViewState, docs: seq<ItemDoc>, owner: string) {
    && s.currentPage >= 1
    && s.pagination == Some(PageOf(docs, owner, s.currentPage, PageSize).pagination)
    && s.items == PagesUpTo(Listed(docs, owner), PageSize, s.currentPage)
  }

  /** The answer the items handler gives over `docs` to an authenticated request for page `n`. */
  predicate Answers(outcome: FetchOutcome, docs: seq<ItemDoc>, auth: Option<string>, n: int) {
    Authenticated(auth) && outcome == Received(ListItems(docs, auth, RequestQuery(n)))
  }

  /** The served answer to a request for page `n` is that page of the listing. */
  lemma AnswerToRequest(docs: seq<ItemDoc>, auth: Option<string>, n: int)
    requires Authenticated(auth) && n >= 1
    ensures FetchData(Received(ListItems(docs, auth, RequestQuery(n)))) == Success(PageOf(docs, auth.value, n, PageSize))
  {
    RequestQueryParams(n);
  }

  /**
   * The request as the client sends it: `fetch` adds no `Authorization`
   * header, whatever cookies go with it, so the handler identifies nobody
   * and answers 401. The view then keeps its items, pagination and page and
   * shows "Failed to fetch items".
   */
  lemma ClientFetchUnauthorized(cfg: Config, verify: Verifier, cookie: Option<string>, contentType: Option<string>,
                                docs: seq<ItemDoc>, s: ViewState, page: int, append: bool)
    requires Loaded(cfg)
    ensures var auth := ValidateAuth(cfg, verify, Headers(None, cookie, contentType));
      var answer := ListItems(docs, auth, RequestQuery(page));
      var t := Fetched(s, page, append, Received(answer));
      && auth == None
      && answer == ErrorResponse("Unauthorized", 401)
      && t.error == Some("Failed to fetch items")
      && t.items == s.items && t.pagination == s.pagination && t.currentPage == s.currentPage
  {
    var auth := ValidateAuth(cfg, verify, Headers(None, cookie, contentType));
    var answer := ListItems(docs, auth, RequestQuery(page));
    assert !Ok(answer);
  }

  /** Fetching page 1 without appending puts any view in sync with the listing. */
  lemma FirstFetchInSync(s: ViewState, docs: seq<ItemDoc>, auth: Option<string>)
    requires Authenticated(auth)
    ensures InSync(Fetched(s, 1, false, Received(ListItems(docs, auth, RequestQuery(1)))), docs, auth.value)
  {
    AnswerToRequest(docs, auth, 1);
    var page := PageOf(docs, auth.value, 1, PageSize);
    assert PagesUpTo(Listed(docs, auth.value), PageSize, 1) == page.items;
  }

  /** When there is more and the next page arrives, `loadMore` appends it and moves to it. */
  lemma LoadMoreStep(s: ViewState, server: Server, page: Listing)
    requires s.pagination.Some? && s.pagination.value.hasMore
    requires FetchData(server(RequestQuery(s.currentPage + 1))) == Success(page)
    ensures LoadedMore(s, server) == ViewState(s.items + page.items, Some(page.pagination), s.currentPage + 1, false, None)
  {
  }

  /** A synced view extended by the next page of the listing is in sync at that page. */
  lemma NextPageInSync(s: ViewState, docs: seq<ItemDoc>, owner: string)
    requires InSync(s, docs, owner)
    ensures var page := PageOf(docs, owner, s.currentPage + 1, PageSize);
      InSync(ViewState(s.items + page.items, Some(page.pagination), s.currentPage + 1, false, None), docs, owner)
  {
    var page := PageOf(docs, owner, s.currentPage + 1, PageSize);
    assert page.items == PageItems(Listed(docs, owner), s.currentPage + 1, PageSize);
  }

  /** `loadMore` keeps a view in sync when the next page it asks for is the listing's next page. */
  lemma LoadMoreKeepsSync(s: ViewState, docs: seq<ItemDoc>, owner: string, server: Server)
    requires InSync(s, docs, owner)
    requires FetchData(server(RequestQuery(s.currentPage + 1))) == Success(PageOf(docs, owner, s.currentPage + 1, PageSize))
    ensures InSync(LoadedMore(s, server), docs, owner)
    ensures LoadedMore(s, server).currentPage == if s.pagination.value.hasMore then s.currentPage + 1 else s.currentPage
  {
    if s.pagination.value.hasMore {
      LoadMoreStep(s, server, PageOf(docs, owner, s.currentPage + 1, PageSize));
      NextPageInSync(s, docs, owner);
    } else {
      LoadMoreGated(s, server);
    }
  }

  /**
   * Against an unchanged collection, `loadMore` keeps the view in sync:
   * when there is more it appends exactly the next page and moves to it;
   * when there is not, nothing changes.
   */
  lemma LoadMoreInSync(s: ViewState, docs: seq<ItemDoc>, auth: Option<string>, server: Server)
    requires Answers(server(RequestQuery(s.currentPage + 1)), docs, auth, s.currentPage + 1)
    requires InSync(s, docs, auth.value)
    ensures InSync(LoadedMore(s, server), docs, auth.value)
    ensures LoadedMore(s, server).currentPage == if s.pagination.value.hasMore then s.currentPage + 1 else s.currentPage
  {
    AnswerToRequest(docs, auth, s.currentPage + 1);
    LoadMoreKeepsSync(s, docs, auth.value, server);
  }

  /**
   * What a synced view shows: the first `currentPage * 5` items of the
   * listing, in order; and once the last answer reported no more, the
   * whole listing.
   */
  lemma SyncedItems(s: ViewState, docs: seq<ItemDoc>, owner: string)
    requires InSync(s, docs, owner)
    ensures s.items == Views(Listed(docs, owner)[..Min(s.currentPage * PageSize, |Listed(docs, owner)|)])
    ensures !s.pagination.value.hasMore ==> s.items == Views(Listed(docs, owner))
  {
    var listed := Listed(docs, owner);
    PagesConcatenate(listed, PageSize, s.currentPage);
    assert listed[..|listed|] == listed;
  }
}
