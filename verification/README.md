# NOC request tracker — Dafny model

This project models the logic of a small browser app in which students ask for
internship No Objection Certificates (NOCs) and faculty approve or reject them.
It has three layers:

- **Session store** (`auth.dfy`, module `Auth`). It holds the signed-in user and the
  persisted `user` slot. Sign-in looks the user up in a fixed account directory.
  Sign-up rejects a known e-mail and signs the new profile in, but never adds it to
  the directory. Sign-out clears both the user and the slot.
- **Request store** (`noc.dfy`, module `Noc`). It holds the list of requests.
  Create appends a `Pending` request numbered `length + 1`. Update rewrites status,
  remarks and `updatedAt` on every record with the given id. The scoped read returns
  nothing when signed out, a student's own requests, or everything for faculty.
- **Views**. These are the pure list logic of the pages: status filter and
  case-insensitive search (`AllRequests`), status filter (`NocRequests`), the pending
  list with the approve and reject flows (`PendingRequests`), counts and the three most
  recent requests (`Dashboard`), approved-only lookup and the `NOC-0001` reference
  (`DownloadNoc`), reviewer choice and submission (`NewNocRequest`), and which buttons
  a card shows (`RequestCard`). Shared helpers: `Text` (trim, ASCII lower-case,
  `includes`, `padStart`, decimal numbers), `Seqs` (`filter`, `find`, subsequences),
  `Recency` (the stable newest-first sort) and `Views` (status selector, viewer role).

Every store operation is a pure function from the old state to the new one. The
session operations return an `AuthStep` that carries the resulting session and the
value returned or the error thrown. Because of this, "a failed sign-in leaves the
session alone" is part of the contract. Timestamps are abstract integers passed in
as `now`. The seed data writes its ISO times as `YYYYMMDDhhmm`, which keeps their order.

The model follows the code as written; in particular:

- `updateNocStatus` does not check the prior status. An approved request can be
  rejected, and the reverse (`Noc.DecisionsAreNotFinal`).
- A rejection without remarks is possible. So the store invariant is "remarks only
  on rejected requests" (`Noc.RemarksOnlyWhenRejected`), not "remarks if and only if
  rejected".
- `createNocRequest` copies whatever remarks its payload carries. The form never
  sends any, so requests created through the form start without remarks.
- The certificate page searches the whole store, not the viewer's scoped list.
- Every sign-up receives id `"3"` (`MOCK_USERS.length + 1`). So all newly registered
  students share one scope (`Noc.RegisteredStudentsShareScope`).

## Model

| member | source | states |
|---|---|---|
| Noc.Create | src/contexts/NocContext.tsx:96-111 | one record is appended and the earlier ones are unchanged; it is `Pending`, `createdAt == updatedAt == now`, carries the payload's fields, and its id is the decimal form of the new length, without leading zeros |
| Noc.UpdateStatus | src/contexts/NocContext.tsx:121-137 | length is preserved; records with another id are unchanged; matching records take the status and `now`, keep remarks only on a rejection, and keep id, owner, details and `createdAt` |
| Noc.UserRequests | src/contexts/NocContext.tsx:148-158 | empty when signed out; for a student, the requests owned by that id, every occurrence, in store order; for faculty, the whole store |
| Noc.InitialWellFormed | src/contexts/NocContext.tsx:35-85 | the seed has ids "1","2","3" in order and remarks only on the rejected request |
| Noc.CreateKeepsWellFormed | src/contexts/NocContext.tsx:102-111 | a create without remarks keeps ids equal to `1..n` in order and remarks only on rejected requests |
| Noc.UpdateKeepsWellFormed | src/contexts/NocContext.tsx:127-137 | a status update preserves both store invariants |
| Noc.CanonicalIdsUnique | src/contexts/NocContext.tsx:105 | ids numbered by position are pairwise distinct |
| Noc.UpdateTouchesOneRecord | src/contexts/NocContext.tsx:127-137 | in a well-numbered store, updating a record's id changes that record alone |
| Noc.UpdateMissingIdIsIdentity | src/contexts/NocContext.tsx:128-136 | updating an id that no record has leaves the store identical |
| Noc.DecisionsAreNotFinal | src/contexts/NocContext.tsx:127-137 | with no `Pending` guard, the approved seed request can be rejected, and the rejected one approved with its remarks cleared |
| Noc.RegisteredStudentsShareScope | src/contexts/AuthContext.tsx:101-104 | any two students who sign up get the same id and see the same requests |
| Auth.Restore | src/contexts/AuthContext.tsx:52-58 | at start-up the current user is the persisted one, so the session is signed in iff a user was stored |
| Auth.IsAuthenticated | src/contexts/AuthContext.tsx:134 | a session is authenticated iff it has a current user |
| Auth.Login | src/contexts/AuthContext.tsx:61-79 | succeeds iff some account has both the e-mail and the password; the user is then the first such account's profile, persisted; on failure the error is `InvalidCredentials` and the session is unchanged |
| Auth.Register | src/contexts/AuthContext.tsx:89-113 | fails with `UserAlreadyExists`, leaving the session unchanged, iff the e-mail is in the directory; otherwise signs in the submitted profile, persisted, with id the decimal form of directory size + 1, without leading zeros |
| Auth.Logout | src/contexts/AuthContext.tsx:123-126 | no current user, nothing persisted, not authenticated |
| Auth.OperationsKeepInSync | src/contexts/AuthContext.tsx:77-78 | sign-in, sign-up and sign-out keep the persisted slot equal to the current user |
| Auth.RegisteredUserCannotLogin | src/contexts/AuthContext.tsx:96-107 | because sign-up never extends the directory, the new credentials are refused at sign-in |
| Auth.RegisteredIdIsThree | src/contexts/AuthContext.tsx:103 | with the built-in two-account directory a new user gets id "3" |
| Auth.MockStudentLogin | src/contexts/AuthContext.tsx:27-45 | the student account signs in with `password123`, and a wrong password is refused |
| Text.Trim | src/pages/PendingRequests.tsx:130 | `trim()` is a slice of the input with only whitespace cut from each end; it is empty exactly for blank strings, and otherwise starts and ends with non-whitespace |
| Text.Lower | src/pages/AllRequests.tsx:24-27 | `toLowerCase()`, restricted to ASCII: each character lower-cased in place, so the length is kept |
| Text.Includes | src/pages/AllRequests.tsx:24-27 | `includes` holds iff the needle occurs at some position |
| Text.PadStart | src/pages/DownloadNoc.tsx:76 | the result has length `max(width, \|s\|)`, ends with `s`, and is fill characters before it |
| Text.NatToString | src/contexts/NocContext.tsx:105 | the decimal rendering of a number is a non-empty digit string without a leading zero |
| Text.ParseNatToString | src/contexts/NocContext.tsx:105 | the decimal rendering of an id number parses back to the number |
| Text.NatToStringInjective | src/contexts/NocContext.tsx:105 | distinct numbers render to distinct ids |
| Seqs.Filter | src/contexts/NocContext.tsx:152 | `filter` yields a subsequence that holds exactly the passing elements, with every occurrence |
| Seqs.FirstIndex | src/contexts/AuthContext.tsx:67 | `find` reports the first position that satisfies the predicate, and finds one iff such a position exists |
| Seqs.Find | src/pages/DownloadNoc.tsx:22 | `find` returns an element iff one satisfies the predicate, and then the one at the first such position |
| Recency.SortNewestFirst | src/pages/AllRequests.tsx:33-35 | the sort is a permutation of its input with non-increasing timestamps |
| AllRequests.MatchesSearch | src/pages/AllRequests.tsx:24-27 | a request matches iff the lower-cased query occurs as a substring of its lower-cased student name, company or role |
| AllRequests.FilterRequests | src/pages/AllRequests.tsx:22-30 | a request is kept iff it passes the status filter and matches the search; each kept request appears as often as in the input and each other one not at all; the result is a subsequence, so "showing n of m" has n ≤ m |
| AllRequests.SortedRequests | src/pages/AllRequests.tsx:33-35 | the page list is a permutation of the filtered list, newest `updatedAt` first |
| AllRequests.EmptyQueryMatches | src/pages/AllRequests.tsx:23-27 | an empty search matches every request |
| AllRequests.DefaultFilterKeepsAll | src/pages/AllRequests.tsx:16-30 | with "all" and an empty query the filtered list is the scoped list itself |
| AllRequests.SearchIgnoresQueryCase | src/pages/AllRequests.tsx:24-27 | lower-casing the query does not change what matches |
| NocRequests.FilterRequests | src/pages/NocRequests.tsx:24-26 | "all" returns the scoped list unchanged; a status returns exactly its requests, in order; the count never exceeds the total |
| NocRequests.SortedRequests | src/pages/NocRequests.tsx:29-31 | the page list is a permutation of the filtered list, newest `createdAt` first |
| NocRequests.PageHeader | src/pages/NocRequests.tsx:35-49 | students see "My NOC Requests" with a New Request action; faculty see "All NOC Requests" without one |
| NocRequests.HeaderFollowsRole | src/pages/NocRequests.tsx:36-49 | title and "New Request" action depend only on whether the viewer is a student |
| PendingRequests.PendingList | src/pages/PendingRequests.tsx:21-27 | the list holds exactly the pending requests of the scoped view, as a permutation, newest `createdAt` first |
| PendingRequests.Approve | src/pages/PendingRequests.tsx:29-31 | each matching record becomes `Approved` with no remarks and `updatedAt == now`, and keeps every other field (id, owner, reviewer, details, `createdAt`); the others are unchanged |
| PendingRequests.OpenDialog | src/pages/PendingRequests.tsx:68-71 | opening selects the request and opens the dialog, keeping the remark text |
| PendingRequests.CancelDialog | src/pages/PendingRequests.tsx:119-123 | Cancel closes the dialog and clears the selection, keeping the remark text |
| PendingRequests.DismissDialog | src/pages/PendingRequests.tsx:99 | closing with Escape or the overlay hides the dialog but keeps the selection and the remark text |
| PendingRequests.DismissKeepsSelection | src/pages/PendingRequests.tsx:99 | after such a dismissal the selection still stands, so confirming would reject the same request, whereas after Cancel nothing is selected |
| PendingRequests.RejectEnabled | src/pages/PendingRequests.tsx:130 | the Reject button is enabled iff not loading and the remark is not blank |
| PendingRequests.Reject | src/pages/PendingRequests.tsx:46-53 | with no selection, or the empty id selected, nothing happens; otherwise each record with the selected id becomes `Rejected` with the typed remark and `updatedAt == now`, keeping its other fields, the others are unchanged, and the dialog resets to closed, unselected and empty |
| PendingRequests.EnabledRejectStoresRemark | src/pages/PendingRequests.tsx:127-131 | when the Reject button is enabled, the stored remark is not blank |
| PendingRequests.DialogFlow | src/pages/PendingRequests.tsx:46-71 | open-then-confirm rejects the chosen request (and does nothing for the empty id); cancel-then-confirm changes nothing; a remark typed before cancelling survives reopening |
| PendingRequests.PendingCardsOfferDecisions | src/pages/PendingRequests.tsx:84-88 | every listed card shows Approve and Reject and no Download |
| Dashboard.StatsOf | src/pages/Dashboard.tsx:22-25 | the total is the list length and each status count is the number of list positions holding a request in that status; the three counts add up to the total |
| Dashboard.CountIsPositions | src/pages/Dashboard.tsx:23-25 | the length of `filter(r => r.status === s)` is the number of positions whose request has status `s` |
| Dashboard.CountsPartition | src/pages/Dashboard.tsx:23-25 | each request is counted under exactly one of the three statuses |
| Dashboard.Recent | src/pages/Dashboard.tsx:28-30 | at most three requests, `min(3, total)` of them, drawn from the list, newest `updatedAt` first; any request left out is no newer than the last one shown |
| Dashboard.NewestPrefix | src/pages/Dashboard.tsx:29-30 | taking the front of a newest-first list keeps its newest elements |
| Dashboard.PageHeader | src/pages/Dashboard.tsx:34-45 | students see "Student Dashboard" with a New NOC Request action; faculty see "Faculty Dashboard" without one |
| Dashboard.HeaderFollowsRole | src/pages/Dashboard.tsx:35-45 | title and "New NOC Request" action depend only on whether the viewer is a student |
| DownloadNoc.Lookup | src/pages/DownloadNoc.tsx:20-34 | no id keeps the page loading; a certificate is shown iff the first request with the id is approved, and then it shows that first request; anything else is not-found and redirect |
| DownloadNoc.LookupCanonical | src/pages/DownloadNoc.tsx:22-23 | in a well-numbered store, the lookup of a request's id shows it iff it is approved |
| DownloadNoc.Reference | src/pages/DownloadNoc.tsx:76 | the reference is `NOC-` and the id left-padded with zeros to four characters; an id of four or more characters is unchanged |
| DownloadNoc.ReferenceNumberRoundTrip | src/pages/DownloadNoc.tsx:76 | the digits after `NOC-` read back as the request number |
| DownloadNoc.SeedReference | src/pages/DownloadNoc.tsx:76 | the approved seed request has reference `NOC-0002` |
| NewNocRequest.DepartmentFaculty | src/pages/NewNocRequest.tsx:76-78 | the reviewers offered are exactly the listed faculty in the viewer's department, in list order |
| NewNocRequest.ReviewerName | src/pages/NewNocRequest.tsx:50-61 | a reviewer name is found iff some listed faculty member has the chosen id |
| NewNocRequest.Submit | src/pages/NewNocRequest.tsx:43-57 | without a user the store is unchanged; otherwise one pending request is appended with the user's id and name, the chosen reviewer id (possibly empty), the details, and no remarks |
| NewNocRequest.SubmitKeepsWellFormed | src/pages/NewNocRequest.tsx:52-57 | submitting through the form preserves the store invariants |
| NewNocRequest.SubmitterSeesRequest | src/pages/NewNocRequest.tsx:52-57 | the submitting student's scoped list grows by one and ends with the new request |
| RequestCard.Render | src/components/NocRequestCard.tsx:41-87 | the student name shows iff the viewer is not a student; remarks show iff present and non-empty; Download iff approved and a download handler is given; Approve and Reject iff a non-student views a pending request and the handler is given |
| RequestCard.ActionsExclusive | src/components/NocRequestCard.tsx:68-87 | a card never shows Download together with a decision, and never shows decisions to a student |
| RequestCard.RemarksShownOnlyWhenRejected | src/components/NocRequestCard.tsx:56 | in a well-formed store a remarks block appears only on rejected requests with non-empty remarks |
| RequestCard.StudentNameForReviewersOnly | src/components/NocRequestCard.tsx:41-43 | the student name is shown iff the viewer is not a student |
| RequestCard.ListingCardActions | src/components/NocRequestCard.tsx:68 | on the listing pages Download appears iff the request is approved, and no decision appears |

## Left out

- Rendering, layout and styling of every page and component. Routing and `navigate` calls: a redirect is the `NotFound` value of `DownloadNoc.Lookup`.
- Toasts, `console` logging, the one-second `setTimeout` delays and the `loading` flags. `loading` is only an input to `PendingRequests.RejectEnabled`.
- `localStorage` I/O and JSON (de)serialisation. The persisted slot is the `stored` field of `Auth.Session`.
- Date parsing and formatting (`new Date(...).getTime()`, `toISOString`, `formatDate`). Timestamps are integers supplied by the caller. An unparsable date would sort as `NaN` in the source; that case has no counterpart here.
- The certificate body text and the "Download NOC" button. The button only shows a toast, so it has no store operation and no member.
- React state timing: the stale `nocRequests` that `createNocRequest` closes over, and effect re-runs. Each operation is one atomic transition.
- AllRequests.FilterRequests: the search lower-cases ASCII letters only (`Text.ToLower`), not the full Unicode case mapping of `toLowerCase`. Full case mapping is out of scope.
- Text.Lower: lower-cases ASCII letters only and so keeps the length; full Unicode `toLowerCase` can change the length (`"İ"` becomes two code units). Only the search uses it, and full case mapping is out of scope.
- Recency.SortNewestFirst: states permutation and order but not stability. The insertion sort is stable like `Array.prototype.sort`, but that is not proved.
- The status selector is a datatype (`Views.StatusFilter`) rather than a free string. The page's `Select` produces only these four values.
