/**
 * The serverless POST /api/waitlist function: preflight, method check,
 * validation, connection, then the admission steps on the store, with the
 * estimate of one week per hundred positions.
 */
module WaitlistApi {
  import opened Common
  import opened Validation
  import opened Records
  import opened Admission
  import opened Store

  /** The parts of a request the handler reads: method, body fields and the Referer header. */
  datatype JoinRequest = JoinRequest(
    httpMethod: Method, email: Option<string>, username: Option<string>, referer: Option<string>)

  /**
   * storeReachable says whether connectToDatabase succeeds; when it throws,
   * the catch block answers 500.
   */
  method HandleJoin(store: Waitlist, req: JoinRequest, now: int, storeReachable: bool) returns (resp: Response)
    requires store.Valid()
    modifies store
    ensures store.Valid()
    ensures req.httpMethod == OPTIONS ==> resp == PreflightResponse && unchanged(store)
    ensures req.httpMethod != OPTIONS && req.httpMethod != POST ==> resp == MethodNotAllowed && unchanged(store)
    ensures req.httpMethod == POST ==>
      AdmitResult(resp, store.entries)
        == Admit(old(store.entries), old(store.nextId), req.email, req.username, req.referer, now, Serverless, storeReachable)
    ensures store.nextId == if resp.code == 200 && req.httpMethod == POST then old(store.nextId) + 1 else old(store.nextId)
  {
    if req.httpMethod == OPTIONS {
      return PreflightResponse;
    }
    if req.httpMethod != POST {
      return MethodNotAllowed;
    }
    var rejection := Validate(req.email, req.username);
    if rejection.Some? {
      return rejection.value;
    }
    var twitterHandle := StripAt(req.username.value);
    if !storeReachable {
      return JoinFailedResponse;
    }
    resp := store.InsertIfNew(req.email.value, twitterHandle, req.referer, now, Serverless);
  }
}
