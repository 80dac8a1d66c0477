/** Notions shared by the list pages: the status selector and the viewer's role. */
module Views {
  import opened Wrappers
  import opened Noc
  import Auth

  /** The status selector: `'all'` or one status. */
  datatype StatusFilter = AnyStatus | Only(status: Status)

  predicate PassesStatus(f: StatusFilter, r: NocRequest) {
    match f
    case AnyStatus => true
    case Only(st) => r.status == st
  }

  /** The viewer is a signed-in student; nobody signed in counts as not a student. */
  predicate IsStudentViewer(user: Option<Auth.User>) {
    user.Some? && user.value.role == Auth.Student
  }

  /** What a page header shows: its title and whether it offers "New Request". */
  datatype Header = Header(title: string, offersNewRequest: bool)
}
