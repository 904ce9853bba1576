/**
 * The read-only admin listing of api/admin/list.js: preflight, then the
 * method check (GET only), then the shared-secret check, then the paginated
 * query. It reads the store's contents and changes nothing.
 */
module AdminListApi {
  import opened Common
  import opened Records
  import opened Listing
  import opened Maintenance

  datatype ListRequest = ListRequest(
    httpMethod: Method, apiKey: Option<string>,
    page: Option<Positive>, limit: Option<Positive>, status: Option<string>)

  /**
   * adminKey is ADMIN_API_KEY; storeReachable says whether connectToDatabase
   * succeeds (its failure is caught and answered 500).
   */
  function HandleList(s: seq<Entry>, req: ListRequest, adminKey: Option<string>, storeReachable: bool): (r: Response)
    ensures r.code in {200, 401, 405, 500}
    ensures r.code == 200 <==>
      req.httpMethod == OPTIONS || (req.httpMethod == GET && RequireAuth(req.apiKey, adminKey) && storeReachable)
    ensures r.body.ListingBody? ==> req.httpMethod == GET && RequireAuth(req.apiKey, adminKey)
  {
    if req.httpMethod == OPTIONS then PreflightResponse
    else if req.httpMethod != GET then MethodNotAllowed
    else if !RequireAuth(req.apiKey, adminKey) then Unauthorized
    else if !storeReachable then AdminErrorResponse
    else ListResponse(s, req.page, req.limit, req.status)
  }

  /** The method is checked before the key: an unauthenticated POST gets 405, not 401. */
  lemma MethodCheckedBeforeAuth(s: seq<Entry>, req: ListRequest, adminKey: Option<string>, up: bool)
    requires req.httpMethod != OPTIONS && req.httpMethod != GET
    ensures HandleList(s, req, adminKey, up) == MethodNotAllowed
    ensures HandleList(s, req.(apiKey := None), adminKey, up) == MethodNotAllowed
  {
  }

  /** A GET passes the key check iff x-api-key is present, non-empty and equal to ADMIN_API_KEY. */
  lemma GetRequiresKey(s: seq<Entry>, req: ListRequest, adminKey: Option<string>, up: bool)
    requires req.httpMethod == GET
    ensures HandleList(s, req, adminKey, up).code == 401 <==>
      !(req.apiKey.Some? && adminKey.Some? && req.apiKey.value != "" && req.apiKey.value == adminKey.value)
  {
    RequireAuthIff(req.apiKey, adminKey);
  }

  /**
   * An authorised GET on a reachable store answers 200 with the page the
   * listing query cuts at the requested (or default) page and limit: at most
   * limit entries, each a store entry satisfying the filter, in
   * joinedAt-descending order; total is the filtered count, at least the
   * page's length, and pages is ceil(total / limit). Which slice the page is
   * comes from Listing.QueryIsSliceOfRanked.
   */
  lemma AuthorisedListing(s: seq<Entry>, req: ListRequest, adminKey: Option<string>)
    requires req.httpMethod == GET && RequireAuth(req.apiKey, adminKey)
    ensures var page, limit := PageOrDefault(req.page), LimitOrDefault(req.limit);
      var q := Query(s, page, limit, req.status);
      && HandleList(s, req, adminKey, true) == Response(200, ListingBody(q.entries, q.pagination))
      && |q.entries| <= limit
      && |q.entries| <= q.pagination.total
      && (forall e :: e in q.entries ==> e in s && Matches(e, req.status))
      && SortedByJoinedDesc(q.entries)
      && q.pagination == Pagination(|Matching(s, req.status)|, page, limit,
                                    CeilDiv(|Matching(s, req.status)|, limit))
  {
    var page, limit := PageOrDefault(req.page), LimitOrDefault(req.limit);
    var q := Query(s, page, limit, req.status);
    assert HandleList(s, req, adminKey, true) == Response(200, ListingBody(q.entries, q.pagination));
    QueryPageIsBoundedSortedAndFiltered(s, page, limit, req.status);
    RankedLength(s, req.status);
    assert q.pagination == Pagination(|Matching(s, req.status)|, page, limit, CeilDiv(|Matching(s, req.status)|, limit));
  }
}
