/**
 * Identity: the authentication gate run before every request, registration
 * and the login decision. Passwords are compared as stored, in plain text.
 */
module Accounts {
  import opened Wrappers
  import opened Tables
  import opened Schema

  /**
   * Flask's `request.endpoint`: the name of the view a request is routed to
   * (`"index"`, `"add_note"`, `"static"`, ...), or none for a URL that no
   * route matches.
   */
  type Endpoint = Option<string>

  /** The endpoints reachable without a session. */
  predicate IsPublic(e: Endpoint) {
    e == Some("login") || e == Some("register")
  }

  /**
   * `require_login`: a request goes through when someone is logged in or when
   * it is for a public endpoint; every other request, unrouted ones included,
   * is sent to the login page.
   */
  function Admits(session: Session, endpoint: Endpoint): (ok: bool)
    ensures !ok <==> session.None? && endpoint != Some("login") && endpoint != Some("register")
  {
    session.Some? || IsPublic(endpoint)
  }

  predicate UsernameTaken(users: Table<UserRecord>, username: string) {
    exists i :: 0 <= i < |users| && users[i].fields.username == username
  }

  predicate EmailTaken(users: Table<UserRecord>, email: string) {
    exists i :: 0 <= i < |users| && users[i].fields.email == email
  }

  /**
   * The `register` handler on a submitted form: the username is checked
   * first, then the email; only when both are free is one user added.
   */
  function Register(users: Table<UserRecord>, username: string, email: string, password: string)
    : (r: (Outcome, Table<UserRecord>))
    ensures r.0 == Ok || r.0 == DuplicateUsername || r.0 == DuplicateEmail
    ensures r.0 == DuplicateUsername <==> UsernameTaken(users, username)
    ensures r.0 == DuplicateEmail <==> !UsernameTaken(users, username) && EmailTaken(users, email)
    ensures r.0 != Ok ==> r.1 == users
    ensures r.0 == Ok ==>
      && |r.1| == |users| + 1 && r.1[..|users|] == users
      && r.1[|users|].fields == UserRecord(username, password, email)
      && !HasId(users, r.1[|users|].id)
  {
    if UsernameTaken(users, username) then (DuplicateUsername, users)
    else if EmailTaken(users, email) then (DuplicateEmail, users)
    else (Ok, users + [Row(NextId(users), UserRecord(username, password, email))])
  }

  /**
   * The `login` handler on a submitted form: find the first user with that
   * username; log them in when the stored password equals the one given.
   * A failure leaves the session as it was.
   */
  function Login(users: Table<UserRecord>, session: Session, username: string, password: string)
    : (r: (Outcome, Session))
    ensures r.0 == Ok || r.0 == UserNotFound || r.0 == InvalidPassword
    ensures r.0 == UserNotFound <==> !UsernameTaken(users, username)
    ensures r.0 != Ok ==> r.1 == session
    ensures r.0 == Ok ==> r.1.Some?
    ensures r.0 == Ok ==>
      exists i :: 0 <= i < |users| && users[i].id == r.1.value
        && users[i].fields.username == username && users[i].fields.password == password
    ensures UsernamesUnique(users) ==>
      (r.0 == Ok <==> CredentialsMatch(users, username, password))
  {
    match FirstWhere(users, (u: User) => u.fields.username == username)
    case None => (UserNotFound, session)
    case Some(i) =>
      if users[i].fields.password == password then (Ok, Some(users[i].id))
      else (InvalidPassword, session)
  }

  /** Some user has exactly this username and this password. */
  predicate CredentialsMatch(users: Table<UserRecord>, username: string, password: string) {
    exists i :: 0 <= i < |users| && users[i].fields.username == username && users[i].fields.password == password
  }

  /** A rejected registration leaves every existing user exactly as it was. */
  lemma RejectedRegistrationWritesNothing(users: Table<UserRecord>, username: string, email: string, password: string)
    requires UsernameTaken(users, username) || EmailTaken(users, email)
    ensures Register(users, username, email, password).1 == users
    ensures UsernameTaken(users, username) ==> Register(users, username, email, password).0 == DuplicateUsername
  {
  }

  /** Registration keeps keys increasing and usernames and emails unique. */
  lemma RegisterKeepsTableWf(users: Table<UserRecord>, username: string, email: string, password: string)
    requires Increasing(users) && UsernamesUnique(users) && EmailsUnique(users)
    ensures var users' := Register(users, username, email, password).1;
            Increasing(users') && UsernamesUnique(users') && EmailsUnique(users')
  {
  }

  /** Whoever has just registered can log in with the same username and password, as the new user. */
  lemma RegisterThenLogin(users: Table<UserRecord>, username: string, email: string, password: string, session: Session)
    requires Register(users, username, email, password).0 == Ok
    ensures var users' := Register(users, username, email, password).1;
            Login(users', session, username, password) == (Ok, Some(users'[|users|].id))
  {
  }

  /** A wrong password never starts a session. */
  lemma WrongPasswordNeverLogsIn(users: Table<UserRecord>, session: Session, username: string, password: string)
    requires forall i :: 0 <= i < |users| && users[i].fields.username == username ==> users[i].fields.password != password
    ensures Login(users, session, username, password).1 == session
    ensures Login(users, session, username, password).0 != Ok
  {
  }
}
