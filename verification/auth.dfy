/**
  The session store: who is signed in, plus the copy of that user kept in
  the browser's persisted `user` slot. Sign-in checks a fixed account
  directory; sign-up rejects a known e-mail and signs the new user in
  without adding them to the directory.
 */
module Auth {
  import opened Wrappers
  import Text
  import Seqs

  datatype Role = Student | Faculty

  /** A signed-in user's profile (never carries the password). */
  datatype User = User(
    id: string,
    name: string,
    email: string,
    role: Role,
    department: Option<string>,
    studentId: Option<string>)

  /** A directory entry: a profile together with its password. */
  datatype Account = Account(profile: User, password: string)

  /** What the sign-up form submits: a profile without id, plus a password. */
  datatype Registration = Registration(
    name: string,
    email: string,
    password: string,
    role: Role,
    department: Option<string>,
    studentId: Option<string>)

  /** The current user and the persisted slot. */
  datatype Session = Session(user: Option<User>, stored: Option<User>)

  datatype AuthError = InvalidCredentials | UserAlreadyExists

  /** The session after an operation, and what the operation returned or threw. */
  datatype AuthStep = AuthStep(session: Session, outcome: Result<User, AuthError>)

  /** The hard-coded account directory. */
  const MockUsers: seq<Account> := [
    Account(User("1", "John Doe", "student@example.com", Student,
                 Some("Computer Science"), Some("CS2023001")), "password123"),
    Account(User("2", "Dr. Jane Smith", "faculty@example.com", Faculty,
                 Some("Computer Science"), None), "password123")
  ]

  /** The state in which the persisted slot mirrors the current user. */
  ghost predicate InSync(s: Session) {
    s.stored == s.user
  }

  /** A session is authenticated exactly when a user is signed in. */
  function IsAuthenticated(s: Session): (b: bool)
    ensures b <==> s.user != None
  {
    s.user.Some?
  }

  predicate HasCredentials(a: Account, email: string, password: string) {
    a.profile.email == email && a.password == password
  }

  predicate HasEmail(a: Account, email: string) {
    a.profile.email == email
  }

  /** Start-up: the session is whatever the persisted slot holds. */
  function Restore(stored: Option<User>): (s: Session)
    ensures s.user == stored
    ensures InSync(s)
    ensures IsAuthenticated(s) <==> stored.Some?
  {
    Session(stored, stored)
  }

  /** Sign in with the first account whose e-mail and password both match. */
  function Login(accounts: seq<Account>, s: Session, email: string, password: string): (r: AuthStep)
    ensures r.outcome.Success? <==>
              exists k :: 0 <= k < |accounts| && HasCredentials(accounts[k], email, password)
    ensures r.outcome.Failure? ==> r.outcome.error == InvalidCredentials && r.session == s
    ensures r.outcome.Success? ==>
              exists k :: 0 <= k < |accounts| && HasCredentials(accounts[k], email, password)
                          && (forall j :: 0 <= j < k ==> !HasCredentials(accounts[j], email, password))
                          && r.outcome.value == accounts[k].profile
    ensures r.outcome.Success? ==> r.session.user == Some(r.outcome.value) && InSync(r.session)
    ensures r.outcome.Success? ==> IsAuthenticated(r.session)
  {
    match Seqs.FirstIndex(accounts, a => HasCredentials(a, email, password))
    case None => AuthStep(s, Failure(InvalidCredentials))
    case Some(k) =>
      var u := accounts[k].profile;
      AuthStep(Session(Some(u), Some(u)), Success(u))
  }

  /** The profile a registration produces: id is the directory size plus one. */
  function NewUser(accounts: seq<Account>, form: Registration): User {
    User(Text.NatToString(|accounts| + 1), form.name, form.email, form.role,
         form.department, form.studentId)
  }

  /** Sign up: refuse a known e-mail, otherwise sign the new profile in.
      The directory itself is never extended. */
  function Register(accounts: seq<Account>, s: Session, form: Registration): (r: AuthStep)
    ensures r.outcome.Failure? <==> exists k :: 0 <= k < |accounts| && HasEmail(accounts[k], form.email)
    ensures r.outcome.Failure? ==> r.outcome.error == UserAlreadyExists && r.session == s
    ensures r.outcome.Success? ==>
              var u := r.outcome.value;
              && Text.AllDigits(u.id) && Text.ParseDigits(u.id) == |accounts| + 1
              && |u.id| > 0 && u.id[0] != '0'
              && u.name == form.name && u.email == form.email && u.role == form.role
              && u.department == form.department && u.studentId == form.studentId
              && r.session.user == Some(u) && InSync(r.session)
  {
    if Seqs.FirstIndex(accounts, a => HasEmail(a, form.email)).Some? then
      AuthStep(s, Failure(UserAlreadyExists))
    else
      var u := NewUser(accounts, form);
      Text.ParseNatToString(|accounts| + 1);
      AuthStep(Session(Some(u), Some(u)), Success(u))
  }

  /** Sign out: no current user and nothing persisted. */
  function Logout(s: Session): (r: Session)
    ensures !IsAuthenticated(r) && r.stored.None?
    ensures InSync(r)
  {
    Session(None, None)
  }

  /** Every session operation keeps the persisted slot in step with the current user. */
  lemma OperationsKeepInSync(accounts: seq<Account>, s: Session, email: string, password: string,
                             form: Registration)
    requires InSync(s)
    ensures InSync(Login(accounts, s, email, password).session)
    ensures InSync(Register(accounts, s, form).session)
    ensures InSync(Logout(s))
  {
  }

  /** Because sign-up does not extend the directory, the credentials just
      registered do not sign in afterwards. */
  lemma RegisteredUserCannotLogin(accounts: seq<Account>, s: Session, form: Registration)
    requires Register(accounts, s, form).outcome.Success?
    ensures Login(accounts, Register(accounts, s, form).session, form.email, form.password).outcome
            == Failure(InvalidCredentials)
  {
  }

  /** With the built-in directory a new user always receives id "3". */
  lemma RegisteredIdIsThree(s: Session, form: Registration)
    requires Register(MockUsers, s, form).outcome.Success?
    ensures Register(MockUsers, s, form).outcome.value.id == "3"
  {
  }

  /** The student account signs in with its password, and a wrong password is refused. */
  lemma MockStudentLogin(s: Session)
    ensures Login(MockUsers, s, "student@example.com", "password123").outcome
            == Success(MockUsers[0].profile)
    ensures Login(MockUsers, s, "student@example.com", "password").outcome
            == Failure(InvalidCredentials)
  {
  }
}
