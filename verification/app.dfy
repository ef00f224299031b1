/**
 * The application as a whole: one request, with the session it arrives in,
 * runs the authentication gate and then its handler, and yields an outcome,
 * the store after it and the session after it.
 */
module App {
  import opened Wrappers
  import opened Tables
  import opened Schema
  import Forms
  import Accounts
  import Notes
  import Listing

  datatype Method = Get | Post

  /** The routed requests, with the form or query values each handler reads. */
  datatype Request =
    | Index(offset: int, perPage: int)
    | AddNote(verb: Method, form: Forms.NoteForm)
    | EditNote(verb: Method, noteId: Id, title: string, content: string, category: string)
    | DeleteNote(noteId: Id)
    | Login(verb: Method, username: string, password: string)
    | Logout
    | Register(verb: Method, username: string, email: string, password: string)

  /** The Flask endpoint name each route is registered under; only login and registration are public. */
  function EndpointOf(req: Request): (e: Accounts.Endpoint)
    ensures e.Some?
    ensures Accounts.IsPublic(e) <==> req.Login? || req.Register?
  {
    match req
    case Index(_, _) => Some("index")
    case AddNote(_, _) => Some("add_note")
    case EditNote(_, _, _, _, _) => Some("edit_note")
    case DeleteNote(_) => Some("delete_note")
    case Login(_, _, _) => Some("login")
    case Logout => Some("logout")
    case Register(_, _, _, _) => Some("register")
  }

  datatype Reply = Reply(outcome: Outcome, store: Store, session: Session)

  /**
   * One request end to end. A `GET` of a form page renders it; the edit
   * page is guarded even then. Only a successful handler writes the store,
   * and only login and logout change the session.
   */
  function Handle(s: Store, session: Session, req: Request): (r: Reply)
    ensures r.outcome == RedirectToLogin <==> session.None? && !Accounts.IsPublic(EndpointOf(req))
    ensures r.outcome == RedirectToLogin ==> r.store == s && r.session == session
    ensures r.store != s ==> r.outcome == Ok
    ensures r.session != session ==> req.Logout? || (req.Login? && r.outcome == Ok)
    ensures r.outcome.Listed? ==> session.Some?
    ensures r.outcome.Listed? && session.Some? ==>
      forall n :: n in r.outcome.items ==> n in s.notes && n.fields.user == session.value
  {
    if !Accounts.Admits(session, EndpointOf(req)) then Reply(RedirectToLogin, s, session)
    else
      match req
      case Index(offset, perPage) =>
        var page := Listing.Listing(s.notes, session.value, offset, perPage);
        Reply(Listed(page.items, page.total), s, session)
      case AddNote(verb, form) =>
        if verb == Get then Reply(Rendered, s, session)
        else
          var step := Notes.AddNote(s, session.value, form);
          Reply(step.outcome, step.store, session)
      case EditNote(verb, noteId, title, content, category) =>
        if verb == Get then
          match Notes.OwnsNote(s.notes, noteId, session.value)
          case Failure(e) => Reply(e, s, session)
          case Success(_) => Reply(Rendered, s, session)
        else
          var step := Notes.EditNote(s, session.value, noteId, title, content, category);
          Reply(step.outcome, step.store, session)
      case DeleteNote(noteId) =>
        var step := Notes.DeleteNote(s, session.value, noteId);
        Reply(step.outcome, step.store, session)
      case Login(verb, username, password) =>
        if verb == Get then Reply(Rendered, s, session)
        else
          var (outcome, session') := Accounts.Login(s.users, session, username, password);
          Reply(outcome, s, session')
      case Logout =>
        Reply(Ok, s, None)
      case Register(verb, username, email, password) =>
        if verb == Get then Reply(Rendered, s, session)
        else
          var (outcome, users) := Accounts.Register(s.users, username, email, password);
          Reply(outcome, s.(users := users), session)
  }

  /** Without a session, every request but login and registration is sent to the login page and changes nothing. */
  lemma UnauthenticatedTurnedAway(s: Store, req: Request)
    requires !req.Login? && !req.Register?
    ensures Handle(s, None, req) == Reply(RedirectToLogin, s, None)
  {
  }

  /** The guarded note handlers never answer 404 for a note that exists, whoever owns it. */
  lemma ForeignNoteIsForbiddenNotMissing(s: Store, actor: Id, req: Request)
    requires Increasing(s.notes)
    requires req.EditNote? || req.DeleteNote?
    requires exists i :: 0 <= i < |s.notes| && s.notes[i].id == req.noteId && s.notes[i].fields.user != actor
    ensures Handle(s, Some(actor), req).outcome == Forbidden
    ensures Handle(s, Some(actor), req).store == s
  {
  }

  /** Every request keeps the store well formed and the session pointing at an existing user. */
  lemma HandleKeepsWf(s: Store, session: Session, req: Request)
    requires Wf(s) && SessionValid(s, session)
    ensures Wf(Handle(s, session, req).store)
    ensures SessionValid(Handle(s, session, req).store, Handle(s, session, req).session)
  {
    if Accounts.Admits(session, EndpointOf(req)) {
      match req
      case AddNote(verb, form) =>
        if verb == Post {
          Notes.AddNoteKeepsWf(s, session.value, form);
        }
      case EditNote(verb, noteId, title, content, category) =>
        if verb == Post {
          Notes.EditNoteKeepsWf(s, session.value, noteId, title, content, category);
        }
      case DeleteNote(noteId) =>
        Notes.DeleteNoteKeepsWf(s, session.value, noteId);
      case Register(verb, username, email, password) =>
        if verb == Post {
          RegisterKeepsWf(s, session, username, email, password);
        }
      case _ =>
    }
  }

  /** A registration keeps the store well formed and the session's user present. */
  lemma RegisterKeepsWf(s: Store, session: Session, username: string, email: string, password: string)
    requires Wf(s) && SessionValid(s, session)
    ensures Wf(s.(users := Accounts.Register(s.users, username, email, password).1))
    ensures SessionValid(s.(users := Accounts.Register(s.users, username, email, password).1), session)
  {
    var users := Accounts.Register(s.users, username, email, password).1;
    Accounts.RegisterKeepsTableWf(s.users, username, email, password);
    RegisterKeepsReferences(s, username, email, password);
    if session.Some? {
      var k :| 0 <= k < |s.users| && s.users[k].id == session.value;
      assert users[k] == s.users[k];
    }
  }

  /** Adding a user keeps every note's references valid. */
  lemma RegisterKeepsReferences(s: Store, username: string, email: string, password: string)
    requires NotesReferToRows(s)
    ensures NotesReferToRows(s.(users := Accounts.Register(s.users, username, email, password).1))
  {
  }

  /**
   * No request touches a note its sender does not own: every note of
   * another user survives unchanged.
   */
  lemma OthersNotesUntouched(s: Store, session: Session, req: Request)
    requires Increasing(s.notes)
    ensures forall i :: 0 <= i < |s.notes| && (session.None? || s.notes[i].fields.user != session.value) ==>
      s.notes[i] in Handle(s, session, req).store.notes
  {
  }
}
