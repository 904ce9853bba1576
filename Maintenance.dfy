/**
 * Admin maintenance of waitlist records, as pure functions over the store's
 * contents: the shared-secret check of both admin endpoints, and the PUT
 * (status update) and DELETE (removal) steps of api/admin/waitlist.js.
 */
module Maintenance {
  import opened Common
  import opened Validation
  import opened Records
  import Admission

  /**
   * requireAuth: rejected when the x-api-key header is missing or empty, or
   * differs from ADMIN_API_KEY (an unset ADMIN_API_KEY is undefined, which no
   * header equals).
   */
  predicate RequireAuth(apiKey: Option<string>, adminKey: Option<string>)
    ensures RequireAuth(apiKey, adminKey) ==> apiKey.Some? && apiKey == adminKey && apiKey.value != ""
  {
    !(!Truthy(apiKey) || Some(apiKey.value) != adminKey)
  }

  /** Authorisation passes iff the header is present, non-empty and equal to the configured key. */
  lemma RequireAuthIff(apiKey: Option<string>, adminKey: Option<string>)
    ensures RequireAuth(apiKey, adminKey) <==>
      apiKey.Some? && adminKey.Some? && apiKey.value != "" && apiKey.value == adminKey.value
    ensures adminKey.None? ==> !RequireAuth(apiKey, adminKey)
  {
  }

  /** The index of the entry with the given id, the first one if several matched. */
  function IndexOfId(s: seq<Entry>, id: EntryId): (r: Option<nat>)
    ensures r.Some? ==> r.value < |s| && s[r.value].id == id
    ensures r.Some? ==> forall j :: 0 <= j < r.value ==> s[j].id != id
    ensures r.None? <==> forall j :: 0 <= j < |s| ==> s[j].id != id
    decreases |s|
  {
    if s == [] then None
    else if s[0].id == id then Some(0)
    else match IndexOfId(s[1..], id)
      case None => None
      case Some(k) => Some(k + 1)
  }

  datatype Changed = Changed(response: Response, entries: seq<Entry>)

  /** The status update of entry i, stamped with the time of the update. */
  function SetStatus(s: seq<Entry>, i: nat, st: Status, now: int): seq<Entry>
    requires i < |s|
  {
    s[i := s[i].(status := st, updatedAt := Some(now))]
  }

  /** handlePut: required fields, then the status enumeration, then updateOne by id. */
  function Put(s: seq<Entry>, id: Option<EntryId>, status: Option<string>, now: int): (r: Changed)
    ensures r.response in {MissingFieldsResponse, InvalidStatusResponse, NotFoundResponse, UpdatedResponse}
    ensures |r.entries| == |s|
    ensures r.response != UpdatedResponse ==> r.entries == s
  {
    if id.None? || !Truthy(status) then Changed(MissingFieldsResponse, s)
    else match ParseStatus(status.value)
      case None => Changed(InvalidStatusResponse, s)
      case Some(st) =>
        match IndexOfId(s, id.value)
        case None => Changed(NotFoundResponse, s)
        case Some(i) => Changed(UpdatedResponse, SetStatus(s, i, st, now))
  }

  /** handleDelete: the id is required, then deleteOne by id. */
  function Delete(s: seq<Entry>, id: Option<EntryId>): (r: Changed)
    ensures r.response in {MissingIdResponse, NotFoundResponse, DeletedResponse}
    ensures r.response == DeletedResponse ==> |r.entries| == |s| - 1
    ensures r.response != DeletedResponse ==> r.entries == s
  {
    if id.None? then Changed(MissingIdResponse, s)
    else match IndexOfId(s, id.value)
      case None => Changed(NotFoundResponse, s)
      case Some(i) => Changed(DeletedResponse, s[..i] + s[i + 1..])
  }

  // ---------------------------------------------------------------------
  // Properties of PUT

  /** Each rejection leaves the store as it was, and they are tried in this order. */
  lemma PutRejections(s: seq<Entry>, id: Option<EntryId>, status: Option<string>, now: int)
    ensures id.None? || !Truthy(status) ==> Put(s, id, status, now) == Changed(MissingFieldsResponse, s)
    ensures id.Some? && Truthy(status) && ParseStatus(status.value).None? ==>
              Put(s, id, status, now) == Changed(InvalidStatusResponse, s)
    ensures id.Some? && Truthy(status) && ParseStatus(status.value).Some?
            && (forall j :: 0 <= j < |s| ==> s[j].id != id.value) ==>
              Put(s, id, status, now) == Changed(NotFoundResponse, s)
  {
  }

  /**
   * A successful PUT rewrites only the entry with that id, and only its status
   * and updatedAt; any current status may move to any valid status.
   */
  lemma PutChangesOnlyTarget(s: seq<Entry>, i: nat, st: Status, now: int)
    requires i < |s| && DistinctIds(s)
    ensures var r := Put(s, Some(s[i].id), Some(StatusName(st)), now);
      && r.response == UpdatedResponse
      && |r.entries| == |s|
      && r.entries[i] == s[i].(status := st, updatedAt := Some(now))
      && (forall j :: 0 <= j < |s| && j != i ==> r.entries[j] == s[j])
  {
    var k := IndexOfId(s, s[i].id);
    assert k == Some(i);
    assert ParseStatus(StatusName(st)) == Some(st);
  }

  /** A PUT preserves every collection invariant. */
  lemma PutPreservesInvariants(s: seq<Entry>, id: Option<EntryId>, status: Option<string>, now: int, bound: nat)
    ensures var r := Put(s, id, status, now);
      && |r.entries| == |s|
      && (forall j :: 0 <= j < |s| ==>
            && r.entries[j].id == s[j].id && r.entries[j].email == s[j].email
            && r.entries[j].twitterHandle == s[j].twitterHandle
            && r.entries[j].position == s[j].position
            && r.entries[j].joinedAt == s[j].joinedAt && r.entries[j].source == s[j].source)
      && (UniqueEmails(s) ==> UniqueEmails(r.entries))
      && (UniqueHandles(s) ==> UniqueHandles(r.entries))
      && (DistinctIds(s) ==> DistinctIds(r.entries))
      && (IdsBelow(s, bound) ==> IdsBelow(r.entries, bound))
      && (PositionsSequential(s) ==> PositionsSequential(r.entries))
      && (HandlesWellFormed(s) ==> HandlesWellFormed(r.entries))
  {
  }

  // ---------------------------------------------------------------------
  // Properties of DELETE

  /** Cutting index i out of a sequence takes exactly one copy of s[i] out of its multiset. */
  lemma CutOneMultiset(s: seq<Entry>, i: nat)
    requires i < |s|
    ensures multiset(s[..i] + s[i + 1..]) + multiset{s[i]} == multiset(s)
  {
    assert s == s[..i] + [s[i]] + s[i + 1..];
  }

  /**
   * A DELETE without an id is 400 and changes nothing; with one, it answers
   * "Entry deleted" exactly when some entry has that id, removes exactly that
   * entry and keeps the others in order, and otherwise answers 404.
   */
  lemma DeleteRemovesExactlyOne(s: seq<Entry>, id: Option<EntryId>)
    ensures id.None? ==> Delete(s, id) == Changed(MissingIdResponse, s)
    ensures id.Some? ==>
      var r := Delete(s, id);
      && (r.response == DeletedResponse <==> exists j :: 0 <= j < |s| && s[j].id == id.value)
      && (r.response != DeletedResponse ==> r == Changed(NotFoundResponse, s))
      && (r.response == DeletedResponse ==>
            var i := IndexOfId(s, id.value).value;
            && r.entries == s[..i] + s[i + 1..]
            && multiset(r.entries) + multiset{s[i]} == multiset(s))
  {
    if id.Some? {
      match IndexOfId(s, id.value)
      case None =>
      case Some(i) => CutOneMultiset(s, i);
    }
  }

  /** The removal of index i keeps every collection invariant that survives dropping a record. */
  lemma RemovalPreservesInvariants(s: seq<Entry>, i: nat, bound: nat)
    requires i < |s|
    ensures var t := s[..i] + s[i + 1..];
      && (UniqueEmails(s) ==> UniqueEmails(t))
      && (UniqueHandles(s) ==> UniqueHandles(t))
      && (DistinctIds(s) ==> DistinctIds(t))
      && (IdsBelow(s, bound) ==> IdsBelow(t, bound))
      && (HandlesWellFormed(s) ==> HandlesWellFormed(t))
  {
    var t := s[..i] + s[i + 1..];
    assert forall j :: 0 <= j < |t| ==> t[j] == s[if j < i then j else j + 1];
  }

  lemma DeletePreservesInvariants(s: seq<Entry>, id: Option<EntryId>, bound: nat)
    ensures var r := Delete(s, id);
      && (UniqueEmails(s) ==> UniqueEmails(r.entries))
      && (UniqueHandles(s) ==> UniqueHandles(r.entries))
      && (DistinctIds(s) ==> DistinctIds(r.entries))
      && (IdsBelow(s, bound) ==> IdsBelow(r.entries, bound))
      && (HandlesWellFormed(s) ==> HandlesWellFormed(r.entries))
  {
    if id.Some? && IndexOfId(s, id.value).Some? {
      RemovalPreservesInvariants(s, IndexOfId(s, id.value).value, bound);
    }
  }

  /** Deleting the same id twice yields 200 and then 404. */
  lemma DeleteTwice(s: seq<Entry>, id: EntryId)
    requires DistinctIds(s)
    requires exists j :: 0 <= j < |s| && s[j].id == id
    ensures Delete(s, Some(id)).response == DeletedResponse
    ensures Delete(Delete(s, Some(id)).entries, Some(id)).response == NotFoundResponse
  {
    var i := IndexOfId(s, id).value;
    var t := s[..i] + s[i + 1..];
    forall j | 0 <= j < |t|
      ensures t[j].id != id
    {
      var o := if j < i then j else j + 1;
      assert t[j] == s[o];
      assert o != i;
    }
  }

  // ---------------------------------------------------------------------
  // Admission after maintenance

  /**
   * Positions are count + 1, not a counter: once an entry other than the last
   * is deleted, the next admission receives the position the last entry
   * already holds.
   */
  lemma AdmissionAfterDeleteRepeatsPosition(s: seq<Entry>, i: nat, newId: EntryId, email: string, username: string,
                                            referer: Option<string>, now: int, dep: Admission.Deployment)
    requires PositionsSequential(s) && DistinctIds(s)
    requires i < |s| - 1
    requires ValidEmail(email) && ValidUsername(username)
    requires !Admission.EmailTaken(s, email) && !Admission.HandleTaken(s, username)
    ensures var d := Delete(s, Some(s[i].id));
      var a := Admission.Admit(d.entries, newId, Some(email), Some(username), referer, now, dep, true);
      && a.response.code == 200
      && |a.entries| == |s|
      && a.entries[|s| - 1].position == |s|
      && a.entries[|s| - 2] == s[|s| - 1]
      && s[|s| - 1].position == |s|
  {
    var id := s[i].id;
    var k := IndexOfId(s, id);
    assert k == Some(i);
    var t := s[..i] + s[i + 1..];
    assert Delete(s, Some(id)).entries == t;
    assert |t| == |s| - 1;
    assert t[|t| - 1] == s[|s| - 1];
    forall j | 0 <= j < |t|
      ensures t[j].email != email && !EqualsIgnoreCase(t[j].twitterHandle, username)
    {
      assert t[j] == s[if j < i then j else j + 1];
    }
    assert !Admission.EmailTaken(t, email) && !Admission.HandleTaken(t, username);
    Admission.AdmitSucceedsIff(t, newId, Some(email), Some(username), referer, now, dep, true);
    var a := Admission.Admit(t, newId, Some(email), Some(username), referer, now, dep, true);
    assert a.entries == t + [Entry(newId, email, username, now, Pending, |t| + 1, Admission.SourceOf(referer), None)];
    assert a.entries[|s| - 2] == t[|t| - 1];
  }
}
