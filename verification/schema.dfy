/**
 * The three tables of the application (`User`, `Category`, `Note`), the
 * session, the outcomes a request can have, and the invariant the store
 * keeps when it is driven only through the request handlers.
 */
module Schema {
  import opened Wrappers
  import opened Tables

  /** A `User` row: `username` and `email` carry UNIQUE constraints; the password is stored as given. */
  datatype UserRecord = UserRecord(username: string, password: string, email: string)

  /** A `Category` row: a name, not declared unique. */
  datatype CategoryRecord = CategoryRecord(name: string)

  /** A `Note` row: two foreign keys, to its category and to its owning user. */
  datatype NoteRecord = NoteRecord(title: string, content: string, category: Id, user: Id)

  type User = Row<UserRecord>
  type Category = Row<CategoryRecord>
  type Note = Row<NoteRecord>

  datatype Store = Store(users: Table<UserRecord>, categories: Table<CategoryRecord>, notes: Table<NoteRecord>)

  /** The logged-in user's id, if any. */
  type Session = Option<Id>

  /** What a request ends in, with the redirects and pages of the web layer reduced to tags. */
  datatype Outcome =
    | Ok
    | Rendered
    | Listed(items: seq<Note>, total: nat)
    | NotFound
    | Forbidden
    | DuplicateUsername
    | DuplicateEmail
    | UserNotFound
    | InvalidPassword
    | Invalid
    | RedirectToLogin

  /** A handler's result: its outcome and the store after it. */
  datatype Step = Step(outcome: Outcome, store: Store)

  ghost predicate UsernamesUnique(users: Table<UserRecord>) {
    forall i, j :: 0 <= i < j < |users| ==> users[i].fields.username != users[j].fields.username
  }

  ghost predicate EmailsUnique(users: Table<UserRecord>) {
    forall i, j :: 0 <= i < j < |users| ==> users[i].fields.email != users[j].fields.email
  }

  /** At most one category per name: what get-or-create is meant to keep. */
  ghost predicate NamesUnique(cats: Table<CategoryRecord>) {
    forall i, j :: 0 <= i < j < |cats| ==> cats[i].fields.name != cats[j].fields.name
  }

  /** Every note refers to a category and a user that exist. */
  ghost predicate NotesReferToRows(s: Store) {
    forall i :: 0 <= i < |s.notes| ==>
      HasId(s.categories, s.notes[i].fields.category) && HasId(s.users, s.notes[i].fields.user)
  }

  /** The invariant of a store built only by the request handlers. */
  ghost predicate Wf(s: Store) {
    && Increasing(s.users) && Increasing(s.categories) && Increasing(s.notes)
    && UsernamesUnique(s.users) && EmailsUnique(s.users)
    && NamesUnique(s.categories)
    && NotesReferToRows(s)
  }

  /** Categories that only grew at the end keep every note's references valid. */
  lemma CategoriesGrowKeepRefs(s: Store, cats: Table<CategoryRecord>)
    requires NotesReferToRows(s)
    requires |s.categories| <= |cats| && cats[..|s.categories|] == s.categories
    ensures NotesReferToRows(s.(categories := cats))
  {
    forall i | 0 <= i < |s.notes|
      ensures HasId(cats, s.notes[i].fields.category)
    {
      GrowingKeepsIds(s.categories, cats, s.notes[i].fields.category);
    }
  }

  /** Appending a note whose category and owner exist keeps every note's references valid. */
  lemma AppendNoteKeepsRefs(s: Store, note: Note)
    requires NotesReferToRows(s)
    requires HasId(s.categories, note.fields.category) && HasId(s.users, note.fields.user)
    ensures NotesReferToRows(s.(notes := s.notes + [note]))
  {
    var notes := s.notes + [note];
    assert forall i :: 0 <= i < |s.notes| ==> notes[i] == s.notes[i];
  }

  /** A session is either empty or names an existing user. */
  ghost predicate SessionValid(s: Store, session: Session) {
    session.Some? ==> HasId(s.users, session.value)
  }
}
