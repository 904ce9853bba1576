# Votigram waitlist: a verified model

This project models the early-access waitlist of the Votigram app in Dafny. It covers four parts.

- **Admission.** `POST /api/waitlist` exists twice: as the serverless function (`api/waitlist.js`) and inside the Express server (`server.js`). Both take an email and a Twitter username and run the same steps:
  1. validate the email, then the username;
  2. reject an email already on the list (exact match);
  3. reject a handle already on the list (case-insensitive match);
  4. give the newcomer position `count + 1`;
  5. append a pending record;
  6. answer with the position and an estimated access date.

  The serverless copy estimates one week per hundred positions. The Express copy estimates a flat 30 days and also requests a confirmation email without waiting for it.
- **Admin maintenance** (`api/admin/waitlist.js`). A shared-secret check (`x-api-key` against `ADMIN_API_KEY`) guards every method but OPTIONS, which the CORS preflight answers first. PUT updates an entry's status. DELETE removes an entry by id.
- **Admin listing.** GET in `api/admin/waitlist.js` and the whole of `api/admin/list.js` share one query:
  - filter by status (optional);
  - sort by `joinedAt`, newest first;
  - skip `(page - 1) * limit` entries and take `limit`;
  - report `total` and `ceil(total / limit)` pages.

## Structure

- **The store.** The collection is a `seq<Entry>` held by the class `Store.Waitlist`. Its methods update the collection in place, and each is proved equal to a pure step function (`Admission.Insert`, `Maintenance.Put`, `Maintenance.Delete`).
- **The protocol.** The step functions, and the lemmas about them, live in:
  - `Validation`: the two regular expressions, the leading-`@` strip and case folding;
  - `Admission`: the admission protocol;
  - `Maintenance`: authorisation, PUT and DELETE;
  - `Listing`: the query.
- **The handlers.** Each is a method over the store:
  - `WaitlistApi.HandleJoin`;
  - `Server.ExpressApp.PostWaitlist`, with the server's cached connection and its mail requests;
  - `AdminWaitlistApi.Handle`.

  The read-only `api/admin/list.js` is the function `AdminListApi.HandleList`.
- **The environment.** Parameters stand for everything outside the code:
  - `now` for the clock;
  - `storeReachable`/`reachable` for whether the database connection succeeds;
  - `adminKey` for `ADMIN_API_KEY`;
  - `transporterConfigured` for whether the mail transport was created;
  - the entry's `id` for the store-assigned `_id`.

## Where the code is followed over its description

- **Email check.** The handlers check the email with `^[^\s@]+@[^\s@]+\.[^\s@]+$`. The model proves that its left-to-right reading (`Validation.ValidEmail`) accepts exactly the strings this pattern matches.
- **Username length.** The comment beside the username check says a handle cannot be shorter than 4 characters. The pattern `{3,15}` accepts 3, and the model follows the pattern.
- **Access estimates.** The two copies of the handler answer with different estimates: one week per hundred positions in `api/waitlist.js`, a flat 30 days in `server.js`. Both rules are modelled, as `Admission.Deployment`.

## Model

| member | source | states |
|---|---|---|
| Common.CeilDiv | api/admin/waitlist.js:79 | `Math.ceil(a / b)` for a positive divisor: the least `q` with `q * b >= a` |
| Common.CeilDivMonotone | api/waitlist.js:121 | `ceil(a / b)` never decreases as `a` grows |
| Validation.FirstAt | api/waitlist.js:25 | the result is the index of the first `@` in the string, or none if the string has no `@` |
| Validation.ValidEmailIffPattern | api/waitlist.js:25 | the email check holds exactly when the string is `L@X.Y`, with `L`, `X` and `Y` non-empty runs of non-whitespace, non-`@` characters |
| Validation.ValidEmailShape | server.js:101 | an accepted email has exactly one `@`, not in first place, and no whitespace at all |
| Validation.StripAtIsIdentityOnValid | api/waitlist.js:36-45 | for any username that passed `^[A-Za-z0-9_]{3,15}$`, removing a leading `@` changes nothing, so the stored handle is the username as given |
| Validation.ValidEmail | api/waitlist.js:25 | an accepted email has at least five characters, contains `@` and does not start with it |
| Validation.ValidUsername | api/waitlist.js:36 | an accepted username has 3 to 15 characters, no whitespace, and does not start with `@` |
| Validation.StripAt | api/waitlist.js:45 | the result is the username, or the username without one leading `@`; it is shorter exactly when the username starts with `@` |
| Validation.EqualsIgnoreCase | api/waitlist.js:65-67 | the anchored case-insensitive match holds for equal handles and only between handles of equal length |
| Validation.FoldCaseOnHandleChars | api/waitlist.js:66 | under the `i` flag two characters of `[A-Za-z0-9_]` match exactly when they are equal or the upper- and lower-case forms of one letter |
| Validation.EqualsIgnoreCaseIsEquivalence | api/waitlist.js:65-67 | the anchored case-insensitive handle match is reflexive, symmetric and transitive |
| Validation.EqualsIgnoreCaseOnHandles | api/waitlist.js:65-67 | two valid handles match `/^h$/i` exactly when they have the same length and differ only in the case of letters |
| Records.ParseStatus | api/admin/waitlist.js:97-101 | a name is accepted exactly when it is one of `pending`, `approved`, `rejected`, `contacted`, and the status returned has that name |
| Records.MethodName | api/waitlist.js:15 | `req.method` as a string: a method is `Other` exactly when its name is none of GET, POST, PUT, DELETE and OPTIONS |
| Records.MethodNameInjective | api/admin/list.js:24 | two methods are equal exactly when their names are, so comparing constructors is the string comparison `req.method !== 'GET'` |
| Admission.EstimatedAccessDate | api/waitlist.js:118-124 | the estimate is never before now; for a real position it is at least a week out, and at most 30 days out for the Express rule or for the first hundred positions |
| Admission.ServerlessEstimateBounds | api/waitlist.js:118-124 | the serverless estimate is `now + 7 days * ceil(position / 100)`: at least one week, and never earlier for a later position |
| Admission.ExpressEstimateIsFlat | server.js:177 | the Express estimate is `now + 30 * 24 * 60 * 60 * 1000` ms, whatever the position |
| Admission.SourceOf | api/waitlist.js:87 | the source is never empty, and it is the Referer header whenever that is present and non-empty |
| Admission.Validate | api/waitlist.js:24-42 | a request passes validation exactly when both fields are present and well formed; otherwise the answer is 400, and it names the email field exactly when the email is at fault |
| Admission.InvalidEmailRejected | api/waitlist.js:25-31 | a missing or malformed email gets the email 400 and the store is unchanged, even when the username is also bad |
| Admission.InvalidUsernameRejected | api/waitlist.js:36-42 | a valid email with a missing or malformed username gets the username 400 and the store is unchanged |
| Admission.DuplicateEmailRejected | api/waitlist.js:54-62 | an email already stored gets the email 409 and the store is unchanged |
| Admission.DuplicateHandleRejected | api/waitlist.js:64-75 | a new email whose handle matches a stored handle case-insensitively gets the username 409 and the store is unchanged |
| Admission.Insert | api/waitlist.js:54-93 | after validation the answer is 200 or 409; 200 exactly when neither the email nor the handle is taken, and then one pending entry at position `count + 1` is appended after the unchanged store; a 409 changes nothing |
| Admission.Admit | server.js:96-188 | the answer is one of 200, 400, 409 and 500; it is 500 exactly when both fields are valid and the store is unreachable; only a 200 changes the store, and it appends one entry after the unchanged store |
| Admission.AdmitSucceedsIff | api/waitlist.js:19-114 | an admission answers 200 exactly when all of these hold: both fields are valid, the store is reachable, and neither the email nor the handle is taken. Then exactly one pending entry is appended at position `count + 1`, with source `referer` or `direct`, and the body echoes handle, position, joinedAt and the estimate. Otherwise nothing changes |
| Admission.AppendPreservesInvariants | api/waitlist.js:81-93 | appending a record whose email and handle clash with none stored, with a fresh id and position `count + 1`, keeps unique emails, unique handles, distinct ids and positions `1..n` |
| Admission.AdmitPreservesInvariants | api/waitlist.js:77-93 | an admission keeps every existing entry, and keeps unique emails, unique handles (case-insensitive), well-formed handles, distinct ids and positions `1..n` |
| Admission.ReplayAssignsConsecutivePositions | api/waitlist.js:77-79 | over any run of admissions from an empty store, the k-th successful one is confirmed at position k. The store then holds exactly positions `1..n`, with unique emails and handles |
| Admission.AtXDotComIsValid | api/waitlist.js:25 | `c@x.com` passes the email check for every character `c` outside `[\s@]` |
| Admission.ThreeUsersFromEmptyStore | api/waitlist.js:54-107 | from an empty list, for any valid inputs: a first user joins at position 1; the same handle or any case variant of it, under another email, gets the handle 409 and adds nothing; the same email under another handle gets the email 409; a third user with a new email and an unrelated handle joins at position 2 |
| Admission.SampleHandles | api/waitlist.js:36-67 | `Foo_Bar` and `foo_bar` both pass validation and collide under the case-insensitive lookup; `alice_1` and `carol_3` do not |
| Listing.Matching | api/admin/list.js:42-45 | the filter keeps exactly the store entries whose status name equals the requested status, and keeps every entry when the status is absent or empty |
| Listing.MatchingKeepsEveryCopy | api/admin/list.js:42-48 | the filter keeps every copy of a matching entry and none of any other, so `total` counts the matching entries even in a store that holds duplicates |
| Listing.SortByJoinedDesc | api/admin/list.js:53 | the sort keeps the number of entries |
| Listing.SortByJoinedDescStable | api/admin/list.js:53 | the sort is stable: the entries that joined at any one instant appear in the result in the order the store holds them |
| Listing.SortByJoinedDescCorrect | api/admin/list.js:51-53 | `sort({ joinedAt: -1 })` returns a permutation of its input, ordered by `joinedAt` descending |
| Listing.Query | api/admin/list.js:47-66 | a page holds at most `limit` entries; `total` is the number of matching entries and the pagination echoes the requested page and limit |
| Listing.QueryPageIsBoundedSortedAndFiltered | api/admin/list.js:47-66 | a page holds at most `limit` entries and never more than `total`. Each entry is a store entry that passes the filter, and the page is newest first. Pagination echoes page and limit, with `pages = ceil(total / limit)` |
| Listing.QueryIsSliceOfRanked | api/admin/list.js:35 | page p is the slice `[(p - 1) * limit, p * limit)` of the sorted matches, and empty past the end; `total` is their number |
| Listing.QueryTotalIndependentOfPage | api/admin/list.js:48 | `total` and `pages` do not depend on the page asked for |
| Listing.EveryMatchIsOnItsPage | api/admin/list.js:51-65 | the match of rank k appears, at offset `k - skip`, on the page whose window contains k, and that page is within the reported page count |
| Maintenance.RequireAuth | api/admin/list.js:7-15 | a request passes only with a non-empty `x-api-key` equal to a configured `ADMIN_API_KEY` |
| Maintenance.RequireAuthIff | api/admin/waitlist.js:8-16 | authorisation passes exactly when `x-api-key` is present, non-empty and equal to `ADMIN_API_KEY`; it never passes when the key is unset |
| Maintenance.IndexOfId | api/admin/waitlist.js:105 | the result is the first index holding that id, or none if no entry has it |
| Maintenance.Put | api/admin/waitlist.js:89-118 | the answer is one of the three rejections or "Entry updated"; the number of entries never changes, and nothing changes unless the answer is "Entry updated" |
| Maintenance.Delete | api/admin/waitlist.js:121-141 | the answer is "Missing required field: id", 404 or "Entry deleted"; a deletion removes one entry, and any other answer changes nothing |
| Maintenance.PutRejections | api/admin/waitlist.js:93-111 | these checks run in order, and each leaves the store untouched: missing id or status (400), a status outside the enumeration (400), an unknown id (404) |
| Maintenance.PutChangesOnlyTarget | api/admin/waitlist.js:103-113 | a valid PUT on an existing id answers "Entry updated". It sets only that entry's status and updatedAt; every other entry stays as it was, and any status may follow any status |
| Maintenance.PutPreservesInvariants | api/admin/waitlist.js:104-107 | a PUT changes no id, email, handle, position, joinedAt or source, and so keeps every collection invariant |
| Maintenance.DeleteRemovesExactlyOne | api/admin/waitlist.js:123-136 | a DELETE without an id answers 400 and changes nothing. With an id it answers "Entry deleted" exactly when some entry has that id. It then removes exactly that entry (as a multiset) and keeps the others in order; otherwise the answer is 404 and nothing changes |
| Maintenance.RemovalPreservesInvariants | api/admin/waitlist.js:130 | removing one record keeps unique emails, unique handles, well-formed handles and distinct ids |
| Maintenance.DeletePreservesInvariants | api/admin/waitlist.js:123-136 | a DELETE, successful or not, keeps unique emails, unique handles, well-formed handles and distinct ids |
| Maintenance.DeleteTwice | api/admin/waitlist.js:130-134 | deleting the same id twice gives 200, then 404 |
| Maintenance.AdmissionAfterDeleteRepeatsPosition | api/waitlist.js:78-79 | positions are `count + 1`, not a counter: after deleting an entry other than the last, the next admission gets the position the last entry already holds |
| Store.Waitlist.InsertIfNew | api/waitlist.js:54-107 | the in-place insertion of a validated handle gives the response and new contents of the admission steps after validation, keeps the store invariant (distinct ids below the counter, unique emails, unique well-formed handles), and advances the id counter exactly on success |
| Store.Waitlist.UpdateStatus | api/admin/waitlist.js:89-118 | the in-place update gives the response and new contents of the PUT step, and keeps the store invariant |
| Store.Waitlist.Remove | api/admin/waitlist.js:121-141 | the in-place removal gives the response and new contents of the DELETE step, and keeps the store invariant |
| WaitlistApi.HandleJoin | api/waitlist.js:6-115 | OPTIONS gets the preflight and any other non-POST gets 405, both with the store untouched. A POST gets the admission protocol with the weekly estimate, and the connection failure is answered 500 |
| Server.ExpressApp.ConnectToDatabase | server.js:74-90 | once a handle is cached it is returned without a new connection attempt. Otherwise exactly one attempt is made, and on failure nothing is cached |
| Server.ExpressApp.SendConfirmationEmail | server.js:50-72 | every call is recorded; a message is handed to the transport only when one was configured |
| Server.ExpressApp.PostWaitlist | server.js:93-188 | the response is that of the admission protocol with the 30-day estimate, and the id counter advances exactly on success. A confirmation to the new email, with the handle and position, is requested exactly on success, and handed to the transport when one is configured. A request rejected by validation never touches the connection; any other reuses the cached handle, or makes exactly one attempt and caches the handle only when it connects |
| AdminWaitlistApi.HandleGet | api/admin/waitlist.js:50-86 | GET answers 200 with at most `limit` (default 50) entries, all matching the filter and newest first, with the filtered total and `ceil(total / limit)` pages |
| AdminWaitlistApi.Handle | api/admin/waitlist.js:18-47 | OPTIONS gets the preflight. Without the key the answer is 401 and the store is unchanged. With the key, GET reads only, PUT and DELETE are the maintenance steps, and any other method gets 405 |
| AdminListApi.HandleList | api/admin/list.js:17-72 | the answer is 200, 401, 405 or 500; it is 200 exactly for the preflight and for a keyed GET on a reachable store, and only a keyed GET gets a listing |
| AdminListApi.MethodCheckedBeforeAuth | api/admin/list.js:23-31 | a method other than GET and OPTIONS gets 405, with or without a key |
| AdminListApi.GetRequiresKey | api/admin/list.js:7-15 | a GET gets 401 exactly when `x-api-key` is missing, empty or differs from `ADMIN_API_KEY` |
| AdminListApi.AuthorisedListing | api/admin/list.js:33-67 | an authorised GET answers 200 with the listing query's page at the requested or default page (1) and limit (50): at most `limit` entries, each a store entry that passes the filter, newest first, with the filtered total and `ceil(total / limit)` pages |

## Left out

- The MongoDB driver and `api/utils/database.js` are not part of this model. The collection is a sequence of records. A connection either succeeds or fails, and that is a parameter.
- `ObjectId(id)` in `api/admin/waitlist.js`: an id is an opaque number and a missing or empty id is `None`. An id string that `ObjectId` rejects (a thrown error, answered 500) is not modelled.
- `api/admin/waitlist.js` connects outside its `try` block, so an unreachable store there rejects the promise without a response. The model assumes that connection succeeds.
- Errors thrown by `findOne`, `countDocuments`, `insertOne`, `updateOne` and `deleteOne` on a live connection (answered 500 by the `catch` blocks) are not modelled. Only the connection failure is.
- Server.ExpressApp.SendConfirmationEmail: the message text and sender, and whether delivery succeeds, are not modelled. Only the request and the hand-over to the transport are recorded.
- CORS header setting (`api/utils/cors.js`, `app.use(cors())`) is left out. Only the OPTIONS short-circuit of `handleCors` (api/utils/cors.js:25-28) is modelled, as `PreflightResponse` in `WaitlistApi.HandleJoin`, `AdminWaitlistApi.Handle` and `AdminListApi.HandleList`. The Express server's `cors()` preflight is left out with the rest of the Express wiring, and `Server.ExpressApp.PostWaitlist` models the POST route only.
- Express wiring, JSON body parsing, static files, the SPA catch-all route and `listen` are left out. So are the command-line scripts `verify-db.js` and `view-waitlist.js`.
- Concurrent requests are not modelled; each request runs alone. Two simultaneous admissions may get the same position or pass the duplicate checks together.
- Dates are milliseconds since the epoch. `setDate(getDate() + 7 * weeks)` becomes `7 * weeks` whole days, which ignores daylight-saving shifts.
- Admission.AdmitSucceedsIff: the handler reads the clock three times (`joinedAt` stored, `joinedAt` echoed, the estimate's base). The model uses one `now` for all three.
- `page` and `limit` are positive whole numbers (`Positive`). What `parseInt` makes of non-numeric, zero, negative or fractional query values, and the `NaN`/skip effects that follow, is not modelled.
- Listing.SortByJoinedDesc: MongoDB leaves the order of entries with equal `joinedAt` unspecified; this function keeps store order for them, as `Listing.SortByJoinedDescStable` proves. `SortByJoinedDescCorrect` promises only what the source does (sorted, a permutation), but `Listing.QueryIsSliceOfRanked`, `Listing.EveryMatchIsOnItsPage`, `AdminWaitlistApi.HandleGet` and `AdminListApi.AuthorisedListing` speak of this one order, so the page they name for a tie is one the database may order differently.
- Request body fields are strings or absent. Non-string JSON values (numbers, arrays) reaching the regular expressions are not modelled.
- Validation.EqualsIgnoreCaseOnHandles: the handle is put into a regular expression unescaped, and the store's regular-expression engine has its own reading of `$` and of caseless matching beyond ASCII. Equality up to ASCII case is exact only when both the pattern and the stored handle are made of `[A-Za-z0-9_]`: validation admits only such patterns, and `Store.Waitlist.Valid` keeps every stored handle of that shape.
- The serverless admission writes to the collection named by `WAITLIST_COLLECTION` or `Early User Acquisition`; the Express server and the admin endpoints default to `waitlist`. The model has one store, so it assumes both settings name the same collection.
- Logging (`console.log`/`console.error`) is left out.
