/**
 * The admin endpoint of api/admin/waitlist.js: preflight, then the
 * shared-secret check for every method, then dispatch to the listing (GET),
 * the status update (PUT) or the deletion (DELETE); any other method is 405.
 */
module AdminWaitlistApi {
  import opened Common
  import opened Records
  import opened Listing
  import opened Maintenance
  import opened Store

  /** req.query: page, limit and status for GET, id for DELETE. */
  datatype AdminQuery = AdminQuery(
    page: Option<Positive>, limit: Option<Positive>, status: Option<string>, id: Option<EntryId>)

  /** req.body of a PUT. */
  datatype UpdateBody = UpdateBody(id: Option<EntryId>, status: Option<string>)

  datatype AdminRequest = AdminRequest(
    httpMethod: Method, apiKey: Option<string>, query: AdminQuery, body: UpdateBody)

  /** handleGet: the listing query over the store; it answers 200 and reads only. */
  function HandleGet(s: seq<Entry>, q: AdminQuery): (r: Response)
    ensures r.code == 200 && r.body.ListingBody?
    ensures |r.body.entries| <= LimitOrDefault(q.limit)
    ensures forall e :: e in r.body.entries ==> e in s && Matches(e, q.status)
    ensures SortedByJoinedDesc(r.body.entries)
    ensures r.body.pagination.total == |Matching(s, q.status)|
    ensures r.body.pagination.pages == CeilDiv(|Matching(s, q.status)|, LimitOrDefault(q.limit))
  {
    QueryPageIsBoundedSortedAndFiltered(s, PageOrDefault(q.page), LimitOrDefault(q.limit), q.status);
    ListResponse(s, q.page, q.limit, q.status)
  }

  /**
   * The exported handler. adminKey is ADMIN_API_KEY; now is the clock read
   * for updatedAt.
   */
  method Handle(store: Waitlist, req: AdminRequest, adminKey: Option<string>, now: int) returns (resp: Response)
    requires store.Valid()
    modifies store
    ensures store.Valid()
    ensures req.httpMethod == OPTIONS ==> resp == PreflightResponse && unchanged(store)
    ensures req.httpMethod != OPTIONS && !RequireAuth(req.apiKey, adminKey) ==>
      resp == Unauthorized && unchanged(store)
    ensures req.httpMethod != OPTIONS && RequireAuth(req.apiKey, adminKey) ==>
      match req.httpMethod
      case GET => resp == HandleGet(old(store.entries), req.query) && unchanged(store)
      case PUT =>
        Changed(resp, store.entries) == Maintenance.Put(old(store.entries), req.body.id, req.body.status, now)
        && store.nextId == old(store.nextId)
      case DELETE =>
        Changed(resp, store.entries) == Maintenance.Delete(old(store.entries), req.query.id)
        && store.nextId == old(store.nextId)
      case _ => resp == MethodNotAllowed && unchanged(store)
  {
    if req.httpMethod == OPTIONS {
      return PreflightResponse;
    }
    if !RequireAuth(req.apiKey, adminKey) {
      return Unauthorized;
    }
    match req.httpMethod {
      case GET =>
        resp := HandleGet(store.entries, req.query);
      case PUT =>
        resp := store.UpdateStatus(req.body.id, req.body.status, now);
      case DELETE =>
        resp := store.Remove(req.query.id);
      case _ =>
        resp := MethodNotAllowed;
    }
  }
}
