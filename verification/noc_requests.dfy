/** The "My NOC Requests" / "All NOC Requests" listing: status filter, newest first. */
module NocRequests {
  import opened Wrappers
  import opened Noc
  import opened Views
  import Auth
  import Seqs
  import Recency

  /** `filteredRequests`: the scoped list itself for "all", otherwise exactly the
      requests in the chosen status, in scoped order. */
  function FilterRequests(reqs: seq<NocRequest>, f: StatusFilter): (r: seq<NocRequest>)
    ensures f.AnyStatus? ==> r == reqs
    ensures f.Only? ==> Seqs.IsSubseq(r, reqs)
    ensures f.Only? ==> forall x :: x in r <==> x in reqs && x.status == f.status
    ensures f.Only? ==> forall x: NocRequest :: x.status == f.status ==> multiset(r)[x] == multiset(reqs)[x]
    ensures |r| <= |reqs|
  {
    match f
    case AnyStatus => reqs
    case Only(st) => Seqs.Filter(reqs, HasStatus(st))
  }

  /** `sortedRequests`: the filtered requests reordered by non-increasing `createdAt`. */
  function SortedRequests(reqs: seq<NocRequest>, f: StatusFilter): (r: seq<NocRequest>)
    ensures multiset(r) == multiset(FilterRequests(reqs, f))
    ensures Recency.NewestFirst(r, Recency.CreatedAt)
    ensures |r| == |FilterRequests(reqs, f)| <= |reqs|
  {
    Recency.SortNewestFirst(FilterRequests(reqs, f), Recency.CreatedAt)
  }

  /** The page header: "My NOC Requests" with a "New Request" action for a
      student, "All NOC Requests" without it otherwise. */
  function PageHeader(user: Option<Auth.User>): (h: Header)
    ensures h.offersNewRequest <==> IsStudentViewer(user)
    ensures h.title == if IsStudentViewer(user) then "My NOC Requests" else "All NOC Requests"
  {
    if IsStudentViewer(user) then Header("My NOC Requests", true)
    else Header("All NOC Requests", false)
  }

  /** Title and action depend on nothing but whether the viewer is a student. */
  lemma HeaderFollowsRole(u1: Option<Auth.User>, u2: Option<Auth.User>)
    requires IsStudentViewer(u1) == IsStudentViewer(u2)
    ensures PageHeader(u1) == PageHeader(u2)
    ensures PageHeader(u1).offersNewRequest <==> IsStudentViewer(u1)
  {
  }
}
