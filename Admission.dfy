/**
 * The admission protocol of the POST /api/waitlist handlers, as pure
 * functions over the store's contents: validate the email, validate the
 * username, reject a duplicate email, reject a case-insensitive duplicate
 * handle, take position count + 1, append a pending entry, and answer with
 * the position and an estimated access date. The response of this protocol
 * is the same in api/waitlist.js and server.js except for the estimate,
 * captured by Deployment. The serverless handler's OPTIONS/405 prelude lives in
 * WaitlistApi, and the server's confirmation email lives in Server.
 */
module Admission {
  import opened Common
  import opened Validation
  import opened Records

  /** Which copy of the handler runs: the serverless function or the Express server. */
  datatype Deployment = Serverless | ExpressServer

  const MsPerDay: int := 24 * 60 * 60 * 1000

  /** Math.ceil(position / 100): one hundred users get access each week. */
  function WeeksToWait(position: nat): nat
  {
    CeilDiv(position, 100)
  }

  /** The estimated access date, in milliseconds, for a request answered at now. */
  function EstimatedAccessDate(dep: Deployment, now: int, position: nat): (d: int)
    ensures d >= now
    ensures position >= 1 ==> d >= now + 7 * MsPerDay
    ensures dep == ExpressServer || position <= 100 ==> d <= now + 30 * MsPerDay
  {
    match dep
    case Serverless => now + WeeksToWait(position) * 7 * MsPerDay
    case ExpressServer => now + 30 * MsPerDay
  }

  /** The serverless estimate is at least a week out and grows with the position. */
  lemma ServerlessEstimateBounds(now: int, p: nat, q: nat)
    requires 1 <= p <= q
    ensures EstimatedAccessDate(Serverless, now, p) >= now + 7 * MsPerDay
    ensures EstimatedAccessDate(Serverless, now, p) <= EstimatedAccessDate(Serverless, now, q)
    ensures EstimatedAccessDate(Serverless, now, p) - now == 7 * MsPerDay * ((p + 99) / 100)
  {
    CeilDivMonotone(p, q, 100);
  }

  /** The Express estimate is a flat 30 days, whatever the position. */
  lemma ExpressEstimateIsFlat(now: int, p: nat, q: nat)
    ensures EstimatedAccessDate(ExpressServer, now, p) == EstimatedAccessDate(ExpressServer, now, q)
    ensures EstimatedAccessDate(ExpressServer, now, p) == now + 2592000000
  {
  }

  /** req.headers.referer || 'direct' */
  function SourceOf(referer: Option<string>): (r: string)
    ensures r != ""
    ensures Truthy(referer) ==> r == referer.value
  {
    if Truthy(referer) then referer.value else "direct"
  }

  predicate EmailAccepted(email: Option<string>)
  {
    email.Some? && ValidEmail(email.value)
  }

  predicate UsernameAccepted(username: Option<string>)
  {
    username.Some? && ValidUsername(username.value)
  }

  /** The two validation steps, email first: the 400 response, if any. */
  function Validate(email: Option<string>, username: Option<string>): (r: Option<Response>)
    ensures r.None? <==> EmailAccepted(email) && UsernameAccepted(username)
    ensures r.Some? ==> r.value.code == 400
    ensures r.Some? ==> (FieldOf(r.value) == Some(EmailField) <==> !EmailAccepted(email))
  {
    if !EmailAccepted(email) then Some(InvalidEmailResponse)
    else if !UsernameAccepted(username) then Some(InvalidUsernameResponse)
    else None
  }

  /** findOne({ email }) finds an entry. */
  predicate EmailTaken(s: seq<Entry>, email: string)
  {
    exists i :: 0 <= i < |s| && s[i].email == email
  }

  /** findOne({ twitterHandle: /^handle$/i }) finds an entry. */
  predicate HandleTaken(s: seq<Entry>, handle: string)
  {
    exists i :: 0 <= i < |s| && EqualsIgnoreCase(s[i].twitterHandle, handle)
  }

  /** The record a successful admission appends. */
  function NewEntry(s: seq<Entry>, id: EntryId, email: string, handle: string,
                    referer: Option<string>, now: int): Entry
  {
    Entry(id, email, handle, now, Pending, |s| + 1, SourceOf(referer), None)
  }

  datatype AdmitResult = AdmitResult(response: Response, entries: seq<Entry>)

  /** Steps after validation: the two duplicate checks, then count + 1, insert and confirm. */
  function Insert(s: seq<Entry>, id: EntryId, email: string, handle: string,
                  referer: Option<string>, now: int, dep: Deployment): (r: AdmitResult)
    ensures r.response.code == 200 || r.response.code == 409
    ensures r.response.code == 200 <==> !EmailTaken(s, email) && !HandleTaken(s, handle)
    ensures r.response.code != 200 ==> r.entries == s
    ensures r.response.code == 200 ==>
      && |r.entries| == |s| + 1 && r.entries[..|s|] == s
      && r.entries[|s|].position == |s| + 1 && r.entries[|s|].status == Pending
  {
    if EmailTaken(s, email) then AdmitResult(DuplicateEmailResponse, s)
    else if HandleTaken(s, handle) then AdmitResult(DuplicateHandleResponse, s)
    else
      var position := |s| + 1;
      AdmitResult(
        Response(200, Joined(JoinedMessage,
          Confirmation(handle, position, now, EstimatedAccessDate(dep, now, position)))),
        s + [NewEntry(s, id, email, handle, referer, now)])
  }

  /**
   * The whole submission. storeAvailable says whether connecting to the
   * store succeeded; a failure there is answered with 500 and changes nothing.
   */
  function Admit(s: seq<Entry>, id: EntryId, email: Option<string>, username: Option<string>,
                 referer: Option<string>, now: int, dep: Deployment, storeAvailable: bool): (r: AdmitResult)
    ensures r.response.code in {200, 400, 409, 500}
    ensures r.response.code == 500 <==> EmailAccepted(email) && UsernameAccepted(username) && !storeAvailable
    ensures r.response.code != 200 ==> r.entries == s
    ensures r.response.code == 200 ==> |r.entries| == |s| + 1 && r.entries[..|s|] == s
  {
    match Validate(email, username)
    case Some(rejection) => AdmitResult(rejection, s)
    case None =>
      if !storeAvailable then AdmitResult(JoinFailedResponse, s)
      else Insert(s, id, email.value, StripAt(username.value), referer, now, dep)
  }

  // ---------------------------------------------------------------------
  // Properties of one admission

  /** A missing or malformed email is reported as such, even when the username is bad too. */
  lemma InvalidEmailRejected(s: seq<Entry>, id: EntryId, email: Option<string>, username: Option<string>,
                             referer: Option<string>, now: int, dep: Deployment, up: bool)
    requires !EmailAccepted(email)
    ensures Admit(s, id, email, username, referer, now, dep, up) == AdmitResult(InvalidEmailResponse, s)
  {
  }

  lemma InvalidUsernameRejected(s: seq<Entry>, id: EntryId, email: Option<string>, username: Option<string>,
                                referer: Option<string>, now: int, dep: Deployment, up: bool)
    requires EmailAccepted(email) && !UsernameAccepted(username)
    ensures Admit(s, id, email, username, referer, now, dep, up) == AdmitResult(InvalidUsernameResponse, s)
  {
  }

  lemma DuplicateEmailRejected(s: seq<Entry>, id: EntryId, email: string, username: string,
                               referer: Option<string>, now: int, dep: Deployment, k: nat)
    requires ValidEmail(email) && ValidUsername(username)
    requires k < |s| && s[k].email == email
    ensures Admit(s, id, Some(email), Some(username), referer, now, dep, true)
         == AdmitResult(DuplicateEmailResponse, s)
  {
  }

  /** The handle check runs only once the email check has passed. */
  lemma DuplicateHandleRejected(s: seq<Entry>, id: EntryId, email: string, username: string,
                                referer: Option<string>, now: int, dep: Deployment, k: nat)
    requires ValidEmail(email) && ValidUsername(username)
    requires !EmailTaken(s, email)
    requires k < |s| && EqualsIgnoreCase(s[k].twitterHandle, username)
    ensures Admit(s, id, Some(email), Some(username), referer, now, dep, true)
         == AdmitResult(DuplicateHandleResponse, s)
  {
    StripAtIsIdentityOnValid(username);
  }

  /**
   * Success in both directions: the answer is 200 exactly when both fields
   * are valid, the store is reachable and neither the email nor the handle is
   * taken; then exactly one pending entry is appended at position count + 1,
   * its handle is the username as given, and the response echoes it.
   */
  lemma AdmitSucceedsIff(s: seq<Entry>, id: EntryId, email: Option<string>, username: Option<string>,
                         referer: Option<string>, now: int, dep: Deployment, up: bool)
    ensures var r := Admit(s, id, email, username, referer, now, dep, up);
      r.response.code == 200 <==>
        EmailAccepted(email) && UsernameAccepted(username) && up
        && !EmailTaken(s, email.value) && !HandleTaken(s, username.value)
    ensures var r := Admit(s, id, email, username, referer, now, dep, up);
      r.response.code == 200 ==>
        && r.entries == s + [Entry(id, email.value, username.value, now, Pending, |s| + 1, SourceOf(referer), None)]
        && r.response.body == Joined(JoinedMessage,
             Confirmation(username.value, |s| + 1, now, EstimatedAccessDate(dep, now, |s| + 1)))
    ensures var r := Admit(s, id, email, username, referer, now, dep, up);
      r.response.code != 200 ==> r.entries == s
  {
    if UsernameAccepted(username) {
      StripAtIsIdentityOnValid(username.value);
    }
  }

  /** Appending a record that clashes with none already stored keeps every collection invariant. */
  lemma AppendPreservesInvariants(s: seq<Entry>, e: Entry)
    requires forall i :: 0 <= i < |s| ==> s[i].email != e.email && !EqualsIgnoreCase(s[i].twitterHandle, e.twitterHandle)
    requires IdsBelow(s, e.id) && e.position == |s| + 1
    ensures var t := s + [e];
      && (UniqueEmails(s) ==> UniqueEmails(t))
      && (UniqueHandles(s) ==> UniqueHandles(t))
      && (DistinctIds(s) ==> DistinctIds(t))
      && (PositionsSequential(s) ==> PositionsSequential(t))
      && (HandlesWellFormed(s) && ValidUsername(e.twitterHandle) ==> HandlesWellFormed(t))
      && IdsBelow(t, e.id + 1)
  {
    var t := s + [e];
    assert forall i :: 0 <= i < |s| ==> t[i] == s[i];
    assert t[|s|] == e;
  }

  /** An admission keeps every existing entry and every collection invariant. */
  lemma AdmitPreservesInvariants(s: seq<Entry>, id: EntryId, email: Option<string>, username: Option<string>,
                                 referer: Option<string>, now: int, dep: Deployment, up: bool)
    requires IdsBelow(s, id)
    ensures var r := Admit(s, id, email, username, referer, now, dep, up);
      && |s| <= |r.entries| <= |s| + 1
      && r.entries[..|s|] == s
      && (UniqueEmails(s) ==> UniqueEmails(r.entries))
      && (UniqueHandles(s) ==> UniqueHandles(r.entries))
      && (DistinctIds(s) ==> DistinctIds(r.entries))
      && (PositionsSequential(s) ==> PositionsSequential(r.entries))
      && (HandlesWellFormed(s) ==> HandlesWellFormed(r.entries))
      && IdsBelow(r.entries, if r.response.code == 200 then id + 1 else id)
  {
    AdmitSucceedsIff(s, id, email, username, referer, now, dep, up);
    var r := Admit(s, id, email, username, referer, now, dep, up);
    if r.response.code == 200 {
      var e := Entry(id, email.value, username.value, now, Pending, |s| + 1, SourceOf(referer), None);
      assert r.entries == s + [e];
      assert (s + [e])[..|s|] == s;
      AppendPreservesInvariants(s, e);
    } else {
      assert r.entries == s;
      assert IdsBelow(s, id) && s[..|s|] == s;
    }
  }

  // ---------------------------------------------------------------------
  // A run of admissions from an empty store

  datatype Submission = Submission(
    email: Option<string>, username: Option<string>, referer: Option<string>, now: int, storeAvailable: bool)

  datatype Replayed = Replayed(entries: seq<Entry>, nextId: EntryId, responses: seq<Response>)

  /** The store after the given submissions, handled in order, starting empty. */
  function Replay(subs: seq<Submission>, dep: Deployment): Replayed
    decreases |subs|
  {
    if subs == [] then Replayed([], 0, [])
    else
      var prev := Replay(subs[..|subs| - 1], dep);
      var sub := subs[|subs| - 1];
      var r := Admit(prev.entries, prev.nextId, sub.email, sub.username, sub.referer, sub.now, dep, sub.storeAvailable);
      Replayed(r.entries, if r.response.code == 200 then prev.nextId + 1 else prev.nextId,
               prev.responses + [r.response])
  }

  /** The positions confirmed by the successful responses, in order. */
  function ConfirmedPositions(rs: seq<Response>): seq<nat>
    decreases |rs|
  {
    if rs == [] then []
    else
      var last := rs[|rs| - 1];
      ConfirmedPositions(rs[..|rs| - 1]) + (if last.body.Joined? then [last.body.data.position] else [])
  }

  /**
   * With admissions only, the i-th successful admission is confirmed at
   * position i, the store holds exactly the admitted entries at positions
   * 1..n, and the collection invariants hold throughout.
   */
  lemma {:induction false} ReplayAssignsConsecutivePositions(subs: seq<Submission>, dep: Deployment)
    ensures var r := Replay(subs, dep);
      && |ConfirmedPositions(r.responses)| == |r.entries|
      && (forall k :: 0 <= k < |r.entries| ==> ConfirmedPositions(r.responses)[k] == k + 1)
      && PositionsSequential(r.entries)
      && UniqueEmails(r.entries) && UniqueHandles(r.entries) && HandlesWellFormed(r.entries)
      && DistinctIds(r.entries) && IdsBelow(r.entries, r.nextId)
      && |r.responses| == |subs|
    decreases |subs|
  {
    if subs != [] {
      var prevSubs := subs[..|subs| - 1];
      ReplayAssignsConsecutivePositions(prevSubs, dep);
      var prev := Replay(prevSubs, dep);
      var sub := subs[|subs| - 1];
      AdmitPreservesInvariants(prev.entries, prev.nextId, sub.email, sub.username, sub.referer, sub.now, dep, sub.storeAvailable);
      AdmitSucceedsIff(prev.entries, prev.nextId, sub.email, sub.username, sub.referer, sub.now, dep, sub.storeAvailable);
      var r := Replay(subs, dep);
      assert r.responses[..|r.responses| - 1] == prev.responses;
    }
  }

  // ---------------------------------------------------------------------
  // A concrete run

  /** c@x.com is a valid email for any address character c. */
  lemma AtXDotComIsValid(c: char)
    requires AddressChar(c)
    ensures ValidEmail([c] + "@x.com")
  {
    var s := [c] + "@x.com";
    assert AddressChar('x') && AddressChar('c') && AddressChar('o') && AddressChar('m');
    assert s[..1] == [c] && s[2..3] == "x" && s[4..] == "com";
    assert EmailSplit(s, 1, 3);
    ValidEmailIffPattern(s);
  }

  /**
   * From an empty waitlist: a first user joins at position 1; the same
   * handle, or any case variant of it, under another email is a duplicate
   * handle and adds nothing; the same email under another handle is a
   * duplicate email; a third user then joins at position 2.
   */
  lemma ThreeUsersFromEmptyStore(a: string, b: string, c: string, alice: string, aliceVariant: string,
                                 bob: string, carol: string, dep: Deployment, t: int)
    requires ValidEmail(a) && ValidEmail(b) && ValidEmail(c)
    requires ValidUsername(alice) && ValidUsername(aliceVariant) && ValidUsername(bob) && ValidUsername(carol)
    requires a != b && a != c
    requires EqualsIgnoreCase(alice, aliceVariant) && !EqualsIgnoreCase(alice, carol)
    ensures var r1 := Admit([], 0, Some(a), Some(alice), None, t, dep, true);
      var r2 := Admit(r1.entries, 1, Some(b), Some(aliceVariant), None, t + 1, dep, true);
      var r3 := Admit(r2.entries, 1, Some(a), Some(bob), None, t + 2, dep, true);
      var r4 := Admit(r3.entries, 1, Some(c), Some(carol), None, t + 3, dep, true);
      && r1.response.code == 200 && r1.response.body.Joined? && r1.response.body.data.position == 1
      && r2.response == DuplicateHandleResponse && |r2.entries| == 1
      && r3.response == DuplicateEmailResponse
      && r4.response.code == 200 && r4.response.body.Joined? && r4.response.body.data.position == 2
      && |r4.entries| == 2 && r4.entries[0].source == "direct"
  {
    var first := Entry(0, a, alice, t, Pending, 1, "direct", None);
    var r1 := Admit([], 0, Some(a), Some(alice), None, t, dep, true);
    AdmitSucceedsIff([], 0, Some(a), Some(alice), None, t, dep, true);
    assert r1.entries == [first];
    DuplicateHandleRejected([first], 1, b, aliceVariant, None, t + 1, dep, 0);
    assert Admit([first], 1, Some(b), Some(aliceVariant), None, t + 1, dep, true)
        == AdmitResult(DuplicateHandleResponse, [first]);
    DuplicateEmailRejected([first], 1, a, bob, None, t + 2, dep, 0);
    assert Admit([first], 1, Some(a), Some(bob), None, t + 2, dep, true)
        == AdmitResult(DuplicateEmailResponse, [first]);
    assert !EmailTaken([first], c) && !HandleTaken([first], carol);
    AdmitSucceedsIff([first], 1, Some(c), Some(carol), None, t + 3, dep, true);
  }

  /** The handles of the sample run: Foo_Bar and foo_bar collide, alice_1 and carol_3 do not. */
  lemma SampleHandles()
    ensures ValidUsername("Foo_Bar") && ValidUsername("foo_bar") && EqualsIgnoreCase("Foo_Bar", "foo_bar")
    ensures ValidUsername("alice_1") && ValidUsername("carol_3") && !EqualsIgnoreCase("alice_1", "carol_3")
  {
    assert FoldCase("alice_1"[0]) != FoldCase("carol_3"[0]);
  }
}
