/**
 * The waitlist collection as an in-memory table updated in place: the
 * insertOne of an admission, the updateOne ($set of status and updatedAt)
 * and the deleteOne of the admin endpoint. Each method is proved against the
 * pure step function that specifies it (Admission.Insert, Maintenance.Put,
 * Maintenance.Delete), whose properties are proved as lemmas there.
 */
module Store {
  import opened Common
  import opened Records
  import opened Validation
  import opened Admission
  import Maintenance

  class Waitlist {
    var entries: seq<Entry>
    /** The identifier the store will assign to the next inserted record. */
    var nextId: EntryId

    /**
     * The collection invariants: ids distinct and below the counter, emails
     * unique, handles unique up to case and all of the validated shape.
     */
    ghost predicate Valid()
      reads this
    {
      && DistinctIds(entries) && IdsBelow(entries, nextId)
      && UniqueEmails(entries) && UniqueHandles(entries) && HandlesWellFormed(entries)
    }

    constructor ()
      ensures Valid() && entries == [] && nextId == 0
    {
      entries := [];
      nextId := 0;
    }

    /**
     * The admission steps after validation: findOne by email, findOne by
     * handle (case-insensitive), countDocuments, insertOne.
     */
    method InsertIfNew(email: string, handle: string, referer: Option<string>, now: int, dep: Deployment)
      returns (resp: Response)
      requires Valid() && ValidUsername(handle)
      modifies this
      ensures Valid()
      ensures AdmitResult(resp, entries) == Insert(old(entries), old(nextId), email, handle, referer, now, dep)
      ensures nextId == if resp.code == 200 then old(nextId) + 1 else old(nextId)
    {
      if EmailTaken(entries, email) {
        return DuplicateEmailResponse;
      }
      if HandleTaken(entries, handle) {
        return DuplicateHandleResponse;
      }
      var totalUsers := |entries|;
      var position := totalUsers + 1;
      var entry := Entry(nextId, email, handle, now, Pending, position, SourceOf(referer), None);
      AppendPreservesInvariants(entries, entry);
      entries := entries + [entry];
      nextId := nextId + 1;
      resp := Response(200, Joined(JoinedMessage,
        Confirmation(handle, position, now, EstimatedAccessDate(dep, now, position))));
    }

    /** The PUT step: required fields, status enumeration, then updateOne by id. */
    method UpdateStatus(id: Option<EntryId>, status: Option<string>, now: int) returns (resp: Response)
      requires Valid()
      modifies this
      ensures Valid()
      ensures Maintenance.Changed(resp, entries) == Maintenance.Put(old(entries), id, status, now)
      ensures nextId == old(nextId)
    {
      if id.None? || !Truthy(status) {
        return MissingFieldsResponse;
      }
      var st := ParseStatus(status.value);
      if st.None? {
        return InvalidStatusResponse;
      }
      var i := Maintenance.IndexOfId(entries, id.value);
      if i.None? {
        return NotFoundResponse;
      }
      Maintenance.PutPreservesInvariants(entries, id, status, now, nextId);
      entries := entries[i.value := entries[i.value].(status := st.value, updatedAt := Some(now))];
      resp := UpdatedResponse;
    }

    /** The DELETE step: the id is required, then deleteOne by id. */
    method Remove(id: Option<EntryId>) returns (resp: Response)
      requires Valid()
      modifies this
      ensures Valid()
      ensures Maintenance.Changed(resp, entries) == Maintenance.Delete(old(entries), id)
      ensures nextId == old(nextId)
    {
      if id.None? {
        return MissingIdResponse;
      }
      var i := Maintenance.IndexOfId(entries, id.value);
      if i.None? {
        return NotFoundResponse;
      }
      Maintenance.DeletePreservesInvariants(entries, id, nextId);
      entries := entries[..i.value] + entries[i.value + 1..];
      resp := DeletedResponse;
    }
  }
}
