/** The student's "New NOC Request" form: reviewer choices and submission. */
module NewNocRequest {
  import opened Wrappers
  import opened Noc
  import Auth
  import Seqs

  datatype FacultyMember = FacultyMember(id: string, name: string, department: string)

  /** The hard-coded reviewer list. */
  const FacultyMembers: seq<FacultyMember> := [
    FacultyMember("2", "Dr. Jane Smith", "Computer Science"),
    FacultyMember("3", "Dr. Robert Johnson", "Computer Science"),
    FacultyMember("4", "Dr. Emily Williams", "Electrical Engineering")
  ]

  /** A faculty member belongs to the viewer's department; never true without a user or a department. */
  predicate SameDepartment(user: Option<Auth.User>, m: FacultyMember) {
    user.Some? && user.value.department == Some(m.department)
  }

  /** `departmentFaculty`: the reviewers offered in the selector, in list order. */
  function DepartmentFaculty(user: Option<Auth.User>): (r: seq<FacultyMember>)
    ensures Seqs.IsSubseq(r, FacultyMembers)
    ensures forall m :: m in r <==> m in FacultyMembers && SameDepartment(user, m)
  {
    Seqs.Filter(FacultyMembers, (m: FacultyMember) => SameDepartment(user, m))
  }

  /** The name of the first listed reviewer with the chosen id, if there is one. */
  function ReviewerName(facultyId: string): (r: Option<string>)
    ensures r.Some? <==> exists i :: 0 <= i < |FacultyMembers| && FacultyMembers[i].id == facultyId
    ensures r.Some? ==> exists i :: 0 <= i < |FacultyMembers| && FacultyMembers[i].id == facultyId
                                    && FacultyMembers[i].name == r.value
  {
    match Seqs.Find(FacultyMembers, (m: FacultyMember) => m.id == facultyId)
    case Some(m) => Some(m.name)
    case None => None
  }

  /** `handleSubmit`: without a user nothing happens; otherwise one request is
      created for the user with the selected reviewer id (possibly empty) and
      the entered details, and no remarks. */
  function Submit(reqs: seq<NocRequest>, user: Option<Auth.User>, facultyId: string,
                  details: InternshipDetails, now: int): (r: seq<NocRequest>)
    ensures user.None? ==> r == reqs
    ensures user.Some? ==>
              && |r| == |reqs| + 1 && r[..|reqs|] == reqs
              && var n := r[|reqs|];
                 && n.studentId == user.value.id && n.studentName == user.value.name
                 && n.facultyId == Some(facultyId) && n.details == details
                 && n.status == Pending && n.remarks.None? && n.createdAt == now == n.updatedAt
  {
    match user
    case None => reqs
    case Some(u) => Create(reqs, Draft(u.id, u.name, Some(facultyId), details, None), now)
  }

  /** Submitting through the form keeps the store well formed. */
  lemma SubmitKeepsWellFormed(reqs: seq<NocRequest>, user: Option<Auth.User>, facultyId: string,
                              details: InternshipDetails, now: int)
    requires WellFormed(reqs)
    ensures WellFormed(Submit(reqs, user, facultyId, details, now))
  {
  }

  /** A student finds the submitted request at the end of their own scoped list. */
  lemma {:induction false} SubmitterSeesRequest(reqs: seq<NocRequest>, u: Auth.User, facultyId: string,
                             details: InternshipDetails, now: int)
    requires u.role == Auth.Student
    ensures var after := Submit(reqs, Some(u), facultyId, details, now);
            var mine := UserRequests(after, Some(u));
            && |mine| == |UserRequests(reqs, Some(u))| + 1
            && mine[|mine| - 1] == after[|reqs|]
  {
    var after := Submit(reqs, Some(u), facultyId, details, now);
    assert after == reqs + [after[|reqs|]];
    Seqs.FilterAppend(reqs, after[|reqs|], OwnedBy(u.id));
  }
}
