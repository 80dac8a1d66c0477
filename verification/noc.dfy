/**
  The request store: the list of NOC requests, appended to by students and
  re-labelled by reviewers. Timestamps are abstract integers supplied by the
  caller (`now`); the seed data encodes its ISO times as YYYYMMDDhhmm, which
  preserves their order.
 */
module Noc {
  import opened Wrappers
  import Text
  import Seqs
  import Auth

  datatype Status = Pending | Approved | Rejected

  datatype InternshipDetails = InternshipDetails(
    companyName: string,
    duration: string,
    role: string,
    startDate: string,
    endDate: string)

  datatype NocRequest = NocRequest(
    id: string,
    studentId: string,
    studentName: string,
    facultyId: Option<string>,
    details: InternshipDetails,
    status: Status,
    remarks: Option<string>,
    createdAt: int,
    updatedAt: int)

  /** The payload of a create call: a request without id, status and timestamps. */
  datatype Draft = Draft(
    studentId: string,
    studentName: string,
    facultyId: Option<string>,
    details: InternshipDetails,
    remarks: Option<string>)

  /** The three requests every session starts with. */
  const InitialRequests: seq<NocRequest> := [
    NocRequest("1", "1", "John Doe", Some("2"),
      InternshipDetails("Google", "3 months", "Software Engineer Intern", "2023-06-01", "2023-08-31"),
      Pending, None, 202304151030, 202304151030),
    NocRequest("2", "1", "John Doe", Some("2"),
      InternshipDetails("Microsoft", "2 months", "Frontend Developer Intern", "2023-05-01", "2023-06-30"),
      Approved, None, 202303100915, 202303151420),
    NocRequest("3", "1", "John Doe", Some("2"),
      InternshipDetails("Amazon", "4 months", "Data Science Intern", "2023-01-01", "2023-04-30"),
      Rejected, Some("Duration exceeds the allowed internship period"), 202212051145, 202212101330)
  ]

  /** Request `i` (0-based) has id `i + 1` in decimal. */
  ghost predicate IdsCanonical(reqs: seq<NocRequest>) {
    forall i :: 0 <= i < |reqs| ==> reqs[i].id == Text.NatToString(i + 1)
  }

  ghost predicate IdsUnique(reqs: seq<NocRequest>) {
    forall i, j :: 0 <= i < j < |reqs| ==> reqs[i].id != reqs[j].id
  }

  /** Only rejected requests carry remarks. */
  ghost predicate RemarksOnlyWhenRejected(reqs: seq<NocRequest>) {
    forall i :: 0 <= i < |reqs| ==> reqs[i].remarks.Some? ==> reqs[i].status == Rejected
  }

  ghost predicate WellFormed(reqs: seq<NocRequest>) {
    IdsCanonical(reqs) && RemarksOnlyWhenRejected(reqs)
  }

  /** `createNocRequest`: append a `Pending` request numbered one past the list length. */
  function Create(reqs: seq<NocRequest>, draft: Draft, now: int): (r: seq<NocRequest>)
    ensures |r| == |reqs| + 1 && r[..|reqs|] == reqs
    ensures var n := r[|reqs|];
            && Text.AllDigits(n.id) && Text.ParseDigits(n.id) == |r| && |n.id| > 0 && n.id[0] != '0'
            && n.status == Pending && n.createdAt == now && n.updatedAt == now
            && n.studentId == draft.studentId && n.studentName == draft.studentName
            && n.facultyId == draft.facultyId && n.details == draft.details
            && n.remarks == draft.remarks
  {
    Text.ParseNatToString(|reqs| + 1);
    reqs + [NocRequest(Text.NatToString(|reqs| + 1), draft.studentId, draft.studentName,
                       draft.facultyId, draft.details, Pending, draft.remarks, now, now)]
  }

  /** The record `req` after a decision: new status, remarks kept only on a rejection. */
  function Decide(req: NocRequest, status: Status, remarks: Option<string>, now: int): NocRequest {
    req.(status := status, remarks := if status == Rejected then remarks else None, updatedAt := now)
  }

  /** `updateNocStatus`: every record with the given id takes the new status.
      The prior status is not consulted. */
  function UpdateStatus(reqs: seq<NocRequest>, id: string, status: Status, remarks: Option<string>,
                        now: int): (r: seq<NocRequest>)
    requires status != Pending
    ensures |r| == |reqs|
    ensures forall i :: 0 <= i < |reqs| && reqs[i].id != id ==> r[i] == reqs[i]
    ensures forall i :: 0 <= i < |reqs| && reqs[i].id == id ==>
              && r[i].status == status && r[i].updatedAt == now
              && r[i].remarks == (if status == Rejected then remarks else None)
              && r[i].id == reqs[i].id && r[i].studentId == reqs[i].studentId
              && r[i].studentName == reqs[i].studentName && r[i].facultyId == reqs[i].facultyId
              && r[i].details == reqs[i].details && r[i].createdAt == reqs[i].createdAt
  {
    seq(|reqs|, i requires 0 <= i < |reqs| =>
      if reqs[i].id == id then Decide(reqs[i], status, remarks, now) else reqs[i])
  }

  /** A request belongs to the student with id `owner`. */
  function OwnedBy(owner: string): NocRequest -> bool {
    (r: NocRequest) => r.studentId == owner
  }

  /** A request is in status `st`. */
  function HasStatus(st: Status): NocRequest -> bool {
    (r: NocRequest) => r.status == st
  }

  /** `getUserNocRequests`: nothing when signed out, a student's own
      requests in store order, or the whole store for faculty. */
  function UserRequests(reqs: seq<NocRequest>, user: Option<Auth.User>): (r: seq<NocRequest>)
    ensures user.None? ==> r == []
    ensures user.Some? && user.value.role == Auth.Faculty ==> r == reqs
    ensures user.Some? && user.value.role == Auth.Student ==>
              && Seqs.IsSubseq(r, reqs)
              && (forall x :: x in r <==> x in reqs && x.studentId == user.value.id)
              && (forall x: NocRequest :: x.studentId == user.value.id ==> multiset(r)[x] == multiset(reqs)[x])
  {
    match user
    case None => []
    case Some(u) =>
      match u.role
      case Student => Seqs.Filter(reqs, OwnedBy(u.id))
      case Faculty => reqs
  }

  /** The seed data is well formed. */
  lemma InitialWellFormed()
    ensures WellFormed(InitialRequests)
  {
  }

  /** Creating keeps the store well formed when the payload carries no remarks. */
  lemma CreateKeepsWellFormed(reqs: seq<NocRequest>, draft: Draft, now: int)
    requires WellFormed(reqs) && draft.remarks.None?
    ensures WellFormed(Create(reqs, draft, now))
  {
  }

  /** A status update keeps the store well formed. */
  lemma UpdateKeepsWellFormed(reqs: seq<NocRequest>, id: string, status: Status,
                              remarks: Option<string>, now: int)
    requires WellFormed(reqs) && status != Pending
    ensures WellFormed(UpdateStatus(reqs, id, status, remarks, now))
  {
  }

  /** Canonical ids are pairwise distinct. */
  lemma CanonicalIdsUnique(reqs: seq<NocRequest>)
    requires IdsCanonical(reqs)
    ensures IdsUnique(reqs)
  {
    forall i, j | 0 <= i < j < |reqs| ensures reqs[i].id != reqs[j].id {
      Text.NatToStringInjective(i + 1, j + 1);
    }
  }

  /** In a well-formed store an update touches at most the one record with that id. */
  lemma UpdateTouchesOneRecord(reqs: seq<NocRequest>, k: nat, status: Status,
                               remarks: Option<string>, now: int)
    requires IdsCanonical(reqs) && k < |reqs| && status != Pending
    ensures var r := UpdateStatus(reqs, reqs[k].id, status, remarks, now);
            r[k] == Decide(reqs[k], status, remarks, now)
            && forall i :: 0 <= i < |reqs| && i != k ==> r[i] == reqs[i]
  {
    CanonicalIdsUnique(reqs);
  }

  /** An id no record carries leaves the store as it was. */
  lemma UpdateMissingIdIsIdentity(reqs: seq<NocRequest>, id: string, status: Status,
                                  remarks: Option<string>, now: int)
    requires status != Pending
    requires forall i :: 0 <= i < |reqs| ==> reqs[i].id != id
    ensures UpdateStatus(reqs, id, status, remarks, now) == reqs
  {
  }

  /** Nothing stops a decided request from being decided again: the approved
      seed request can be rejected, and the rejected one approved. */
  lemma DecisionsAreNotFinal(now: int)
    ensures UpdateStatus(InitialRequests, "2", Rejected, Some("late"), now)[1].status == Rejected
    ensures UpdateStatus(InitialRequests, "3", Approved, None, now)[2].status == Approved
    ensures UpdateStatus(InitialRequests, "3", Approved, None, now)[2].remarks == None
  {
  }

  /** Sign-up always hands out the same id, so two students who register
      (with different e-mails) see exactly the same requests. */
  lemma RegisteredStudentsShareScope(reqs: seq<NocRequest>, s1: Auth.Session, f1: Auth.Registration,
                                     s2: Auth.Session, f2: Auth.Registration)
    requires Auth.Register(Auth.MockUsers, s1, f1).outcome.Success? && f1.role == Auth.Student
    requires Auth.Register(Auth.MockUsers, s2, f2).outcome.Success? && f2.role == Auth.Student
    ensures UserRequests(reqs, Some(Auth.Register(Auth.MockUsers, s1, f1).outcome.value))
         == UserRequests(reqs, Some(Auth.Register(Auth.MockUsers, s2, f2).outcome.value))
  {
  }
}
