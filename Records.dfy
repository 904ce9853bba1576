/**
 * The waitlist record, the status enumeration, the invariants of the
 * collection, and the HTTP vocabulary (methods, response codes and bodies)
 * shared by every handler.
 */
module Records {
  import opened Common
  import opened Validation

  /** A store-assigned identifier; opaque apart from equality. */
  type EntryId = nat

  datatype Status = Pending | Approved | Rejected | Contacted

  /** The string the store holds for a status. */
  function StatusName(st: Status): string
  {
    match st
    case Pending => "pending"
    case Approved => "approved"
    case Rejected => "rejected"
    case Contacted => "contacted"
  }

  /** validStatuses.includes(name), returning the status it names. */
  function ParseStatus(name: string): (r: Option<Status>)
    ensures r.Some? ==> StatusName(r.value) == name
    ensures r.None? ==> forall st: Status :: StatusName(st) != name
  {
    if name == "pending" then Some(Pending)
    else if name == "approved" then Some(Approved)
    else if name == "rejected" then Some(Rejected)
    else if name == "contacted" then Some(Contacted)
    else None
  }

  /** One waitlist record as stored. Times are milliseconds since the epoch. */
  datatype Entry = Entry(
    id: EntryId,
    email: string,
    twitterHandle: string,
    joinedAt: int,
    status: Status,
    position: nat,
    source: string,
    updatedAt: Option<int>)

  /** No two entries share an email (exact comparison). */
  ghost predicate UniqueEmails(s: seq<Entry>)
  {
    forall i, j :: 0 <= i < j < |s| ==> s[i].email != s[j].email
  }

  /** No two entries share a handle under case-insensitive comparison. */
  ghost predicate UniqueHandles(s: seq<Entry>)
  {
    forall i, j :: 0 <= i < j < |s| ==> !EqualsIgnoreCase(s[i].twitterHandle, s[j].twitterHandle)
  }

  /** Every stored handle is one the username check accepts. */
  ghost predicate HandlesWellFormed(s: seq<Entry>)
  {
    forall i :: 0 <= i < |s| ==> ValidUsername(s[i].twitterHandle)
  }

  /** The store's own guarantee for _id. */
  ghost predicate DistinctIds(s: seq<Entry>)
  {
    forall i, j :: 0 <= i < j < |s| ==> s[i].id != s[j].id
  }

  ghost predicate IdsBelow(s: seq<Entry>, bound: nat)
  {
    forall i :: 0 <= i < |s| ==> s[i].id < bound
  }

  /** Entry k (0-based) holds position k + 1. */
  ghost predicate PositionsSequential(s: seq<Entry>)
  {
    forall i :: 0 <= i < |s| ==> s[i].position == i + 1
  }

  // ---------------------------------------------------------------------
  // HTTP vocabulary

  /** A method name other than the five the handlers compare against. */
  type OtherMethodName = n: string | n !in {"GET", "POST", "PUT", "DELETE", "OPTIONS"} witness "PATCH"

  /** req.method; Other never spells one of the named methods, so each name has one value. */
  datatype Method = GET | POST | PUT | DELETE | OPTIONS | Other(name: OtherMethodName)

  /** The string req.method holds for m. */
  function MethodName(m: Method): (n: string)
    ensures m.Other? <==> n !in {"GET", "POST", "PUT", "DELETE", "OPTIONS"}
  {
    match m
    case GET => "GET"
    case POST => "POST"
    case PUT => "PUT"
    case DELETE => "DELETE"
    case OPTIONS => "OPTIONS"
    case Other(name) => name
  }

  /** Comparing methods is comparing their names, as the handlers do. */
  lemma MethodNameInjective(m1: Method, m2: Method)
    ensures MethodName(m1) == MethodName(m2) <==> m1 == m2
  {
  }

  datatype Field = EmailField | UsernameField

  /** The confirmation payload of a successful submission. */
  datatype Confirmation = Confirmation(
    twitterHandle: string, position: nat, joinedAt: int, estimatedAccessDate: int)

  datatype Pagination = Pagination(total: nat, page: nat, limit: nat, pages: nat)

  datatype Body =
    | Outcome(success: bool, field: Option<Field>, message: string)  // { success, field?, message }
    | Joined(message: string, data: Confirmation)                    // { success: true, message, data }
    | Error(error: string)                                           // { error }
    | ListingBody(entries: seq<Entry>, pagination: Pagination)       // { entries, pagination }
    | Empty                                                          // preflight: res.status(200).end()

  datatype Response = Response(code: nat, body: Body)

  /** The field a client error points at, if any. */
  function FieldOf(r: Response): Option<Field>
  {
    if r.body.Outcome? then r.body.field else None
  }

  /** handleCors answers a preflight request before any handler logic runs. */
  const PreflightResponse := Response(200, Empty)
  const MethodNotAllowed := Response(405, Error("Method Not Allowed"))
  const Unauthorized := Response(401, Error("Unauthorized"))

  const InvalidEmailResponse :=
    Response(400, Outcome(false, Some(EmailField), "Please provide a valid email address"))
  const InvalidUsernameResponse :=
    Response(400, Outcome(false, Some(UsernameField),
      "Please provide a valid Twitter handle (3-15 characters, letters, numbers, and underscores only)"))
  const DuplicateEmailResponse :=
    Response(409, Outcome(false, Some(EmailField), "This email is already on our waitlist"))
  const DuplicateHandleResponse :=
    Response(409, Outcome(false, Some(UsernameField), "This Twitter handle is already on our waitlist"))
  const JoinFailedResponse :=
    Response(500, Outcome(false, None,
      "An error occurred while processing your request. Please try again later."))
  const JoinedMessage := "Thank you for joining our waitlist!"

  const MissingFieldsResponse := Response(400, Error("Missing required fields"))
  const InvalidStatusResponse := Response(400, Error("Invalid status value"))
  const MissingIdResponse := Response(400, Error("Missing required field: id"))
  const NotFoundResponse := Response(404, Error("Entry not found"))
  const UpdatedResponse := Response(200, Outcome(true, None, "Entry updated"))
  const DeletedResponse := Response(200, Outcome(true, None, "Entry deleted"))
  const AdminErrorResponse := Response(500, Error("An error occurred"))
}
