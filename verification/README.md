# Notes-App access rules, modelled in Dafny

This project models the core of a small Flask note-taking application: who may
reach which request, how accounts are registered and logged into, how a
category name is turned into a category (get-or-create), the `owns_note`
guard that separates "no such note" from "someone else's note", the add, edit
and delete handlers behind it, the per-user paged listing, and the `NoteForm`
length validators. The database is pure data and every handler is a pure
transition from one store to the next, returning an outcome tag.

Modules (one file each):

- `Wrappers` (`wrappers.dfy`): `Option` and `Result`.
- `Tables` (`tables.dfy`): a table as its rows in rowid order. Also the SQLite key allocation for an integer primary key. Also first-match lookup, `DELETE ... WHERE` and `UPDATE ... WHERE`.
- `Forms` (`forms.dfy`): the WTForms `Length` validator and `NoteForm`.
- `Schema` (`schema.dfy`): the `User`, `Category` and `Note` rows, the store, the session, the outcomes, and the store invariant `Wf`.
- `Categories` (`categories.dfy`): `Category.get_or_create`.
- `Accounts` (`accounts.dfy`): the `require_login` gate, `register`, `login`.
- `Notes` (`notes.dfy`): `owns_note`, `add_note`, `edit_note`, `delete_note`.
- `Listing` (`listing.dfy`): the `index` query with offset and limit.
- `App` (`app.dfy`): one request through the gate and its handler.

Modelling choices:

- Tables are sequences, not maps. Peewee's `get`/`get_or_none` return the first row an unordered scan meets, which in SQLite is rowid order. A sequence gives that answer deterministically, even on a store that breaks the intended uniqueness of category names.
- New keys follow SQLite's rule for an `INTEGER PRIMARY KEY` without `AUTOINCREMENT`, which is what peewee's `AutoField` declares: one more than the largest key, or 1 in an empty table. So the key of a deleted last note can be handed out again.
- `edit_note` saves and `delete_note` deletes by primary key. They are modelled as `UPDATE`/`DELETE ... WHERE id = note_id` over every matching row. Under the invariant `Wf`, keys strictly increase, so that is exactly one row.
- The session is an optional user id. `request.endpoint` is an optional endpoint name, with none for a URL no route matches.
- A `GET` of a form page yields `Rendered` and writes nothing. The edit page runs the ownership guard even on `GET`, as the decorator does.

The form constraints are sometimes described as applying to both adding and editing a note; the model follows the code instead. `edit_note` (app.py:111-115) reads `request.form` directly and never validates, so an owner can store an empty title, an empty content or an empty category name (`Notes.EditSkipsValidation`). The edit also creates a category named `""` when given one.

## Model

| member | source | states |
|---|---|---|
| Forms.Errors | forms.py:3-6 | a field is reported exactly when its value breaks its bound: title outside 1..255 characters, content empty, category empty |
| Forms.Validate | forms.py:3-6 | the form validates exactly when the title has 1 to 255 characters and content and category are non-empty |
| Forms.TitleBoundIsInclusive | forms.py:4 | with the other fields filled, a 255-character title is accepted and a 256-character one is rejected, with only the title reported |
| Forms.OneBadFieldInvalidates | forms.py:3-6 | any single violated field makes the whole form invalid and is among the reported fields |
| Tables.NextId | app.py:26 | a new key is at least 1, exceeds every key in the table, and is one more than an existing key unless it is 1 |
| Tables.FirstWhere | app.py:92 | the position found holds a matching row and no earlier row matches; none is found exactly when no row matches, the first-row answer of peewee's `get_or_none` (also app.py:81, 143) |
| Tables.DeleteWhere | app.py:131 | the rows kept are exactly the rows of the table that do not match, and at least one row goes when one matches |
| Tables.DeleteWhereIncreasing | app.py:131 | deleting rows keeps the survivors' keys strictly increasing |
| Tables.UpdateWhere | app.py:115 | `note.save()` as an update by key: the table keeps its length and every key; rows that do not match are unchanged and matching rows take the new columns |
| Categories.GetOrCreate | app.py:81 | the returned id names a category with the given name; an existing name returns the first such category and leaves the table unchanged; a new name appends exactly one category under a fresh id |
| Categories.GetOrCreateIdempotent | app.py:114 | a second get-or-create with the same name returns the same id and writes nothing |
| Categories.GetOrCreateKeepsTableWf | app.py:22-23 | get-or-create keeps category keys increasing and at most one category per name |
| Categories.GetOrCreateAll | app.py:81 | resolving names one after another only appends to the table, and every resolved name is then present |
| Categories.SequentialUseKeepsNamesUnique | app.py:81 | however many names are resolved in sequence, the table keeps at most one category per name |
| Accounts.Admits | app.py:49-52 | a request is turned away exactly when there is no session and its endpoint is neither `login` nor `register`, unrouted requests included |
| Accounts.Register | app.py:171-183 | a taken username gives DuplicateUsername even when the email is taken too; otherwise a taken email gives DuplicateEmail; either rejection leaves the users unchanged; success appends one user with the given username, email and password under a fresh id |
| Accounts.RejectedRegistrationWritesNothing | app.py:171-179 | a registration clashing on username or email leaves every existing user exactly as it was, and a username clash is reported as such |
| Accounts.RegisterKeepsTableWf | app.py:25-29 | registration keeps user keys increasing and usernames and emails unique |
| Accounts.Login | app.py:143-154 | an unknown username gives UserNotFound; a session starts only for a user whose username and stored password equal the input; every failure leaves the session as it was; with unique usernames success happens exactly when the credentials match a user |
| Accounts.RegisterThenLogin | app.py:143-147 | right after a successful registration, logging in with the same username and password succeeds and starts a session for the new user |
| Accounts.WrongPasswordNeverLogsIn | app.py:145-149 | when no user with that username has that password, login fails and the session is unchanged |
| Notes.OwnsNote | app.py:88-99 | NotFound exactly when no note has the id; Forbidden only when a note with the id belongs to someone else; success names a note with that id owned by the actor; nothing else is possible |
| Notes.OwnsNoteDecides | app.py:92-97 | with unique note ids the guard gives Forbidden exactly when the note exists under another owner, and passes exactly when the actor owns it |
| Notes.AddNote | app.py:74-86 | a note is created exactly when the form validates; invalid input leaves the store unchanged; the new note has a fresh id, is owned by the actor, has the given title and content, and its category and the category table are exactly what get-or-create gives for the form's category name (the first category of that name reused, or one new category appended); users and earlier notes are unchanged |
| Notes.AddThenOwned | app.py:82 | the note just added passes the ownership guard for its creator and carries the given title and content |
| Notes.EditNote | app.py:105-118 | the edit succeeds exactly when the guard passes, and a refusal carries the guard's answer with the store unchanged; on success every note keeps its id and position, notes with another id are unchanged, and the target note has the new title, content and a category with the new name, still owned by the actor; the category table and the target's category are exactly what get-or-create gives for the new name |
| Notes.EditSkipsValidation | app.py:111-115 | an owner's edit succeeds even with a form that fails validation |
| Notes.DeleteNote | app.py:126-134 | the delete succeeds exactly when the guard passes, and a refusal leaves the store unchanged; on success the notes left are exactly the earlier notes with another id, users and categories are unchanged |
| Notes.DeleteThenNotFound | app.py:131 | after a successful delete the guard answers NotFound for that id |
| Notes.AddNoteKeepsWf | app.py:74-86 | adding a note for an existing user keeps the store invariant |
| Notes.EditNoteKeepsWf | app.py:111-115 | editing keeps the store invariant |
| Notes.DeleteNoteKeepsWf | app.py:127-131 | deleting keeps the store invariant |
| Listing.OwnedBy | app.py:63 | the selected notes are exactly the table's notes owned by the actor, and there are never more of them than notes in the table |
| Listing.OwnedByIncreasing | app.py:63 | on a table with increasing keys the selected notes keep increasing keys, so they come in table order, each once |
| Listing.OwnedByIsDetermined | app.py:63 | on a table with increasing keys, any increasing table holding exactly the actor's notes is the owner filter's result |
| Listing.Window | app.py:65 | a negative offset counts as 0 and a negative limit as none, as in SQLite; the window is at most `limit` long when `limit` is not negative, empty when the offset is at or past the end, the whole sequence for a negative offset and limit, otherwise `min(limit, length - start)` long, and its i-th item is the item at `start + i` |
| Listing.Listing | app.py:62-65 | the page holds only the actor's notes, at most `per_page` of them when `per_page` is not negative, empty when the offset is at or past the total, and otherwise exactly `min(per_page, total - start)` long, the whole rest when `per_page` is negative; the total counts the actor's notes; item i is the actor's note at rank `start + i`, with a negative offset starting at 0 |
| Listing.ListingInTableOrder | app.py:62-65 | on a table with increasing keys the page has increasing keys, so it is in table order |
| Listing.NegativeBoundsClamp | app.py:62-65 | a negative offset gives the same page as offset 0, and with a negative `per_page` as well the page is every note of the actor |
| Listing.ListNotes | app.py:63-65 | one scan of the note table yields the same count and page as the owner filter followed by the offset/limit window |
| Listing.SevenNotesTwoPages | app.py:62-65 | with seven notes of one owner and five per page, the first page holds the first five and the page at offset five holds the last two, with total seven |
| App.EndpointOf | app.py:51 | every routed request has an endpoint name, and it is `login` or `register` exactly for the login and registration requests |
| App.Handle | app.py:49-189 | a request is redirected to login exactly when it has no session and is not for login or register, and then nothing changes; only a successful outcome writes the store; only logout and a successful login change the session; a listing shows only the sender's notes |
| App.UnauthenticatedTurnedAway | app.py:49-52 | without a session every request but login and register yields RedirectToLogin with store and session unchanged |
| App.ForeignNoteIsForbiddenNotMissing | app.py:92-97 | editing or deleting an existing note of another user gives Forbidden, never NotFound, and writes nothing |
| App.HandleKeepsWf | app.py:25-35 | every request keeps ids increasing, usernames, emails and category names unique, every note's category and owner existing, and the session pointing at an existing user |
| App.RegisterKeepsWf | app.py:182-183 | a registration, accepted or refused, keeps the whole store invariant and a logged-in session still names an existing user |
| App.OthersNotesUntouched | app.py:88-99 | whatever the request, every note owned by someone other than the sender survives unchanged |

## Left out

- Flask routing, `render_template`, `flash` messages and `url_for`: redirects and pages are outcome tags, and the flashed text is not modelled.
- Flask-Login's session storage and `load_user` (app.py:55-57): the session is an optional user id. The failure of `load_user` for a missing id is not modelled, because no handler deletes users.
- `login_required` (app.py:73, 103, 124, 158) and the `else` branch of `index` (app.py:68-70): both test the same condition as the gate, which has already passed, so only the gate is modelled.
- The second `None` checks in `edit_note` and `delete_note` (app.py:108-109, 128-129): unreachable once the guard has passed.
- Peewee, SQL text, table creation and per-request connect/close (app.py:45-47, 192-200): database I/O. The model keeps only the effect of each query on the tables.
- `get_page_args` and the `Pagination` widget (app.py:62, 66): library code not shown; `offset` and `per_page` are inputs and may be any integers, negative ones included.
- The race in a non-atomic get-or-create under concurrent requests: the model is sequential and cannot observe it.
- Password hashing: the code has none, and passwords are compared by plain equality.
- Missing form keys in the edit, login and register handlers: `request.form[...]` fails with a 400 there. The model takes those fields as present.
- A `GET` on the POST-only delete route (a 405) and the views behind static files and unrouted URLs: only the gate's decision on them is modelled.
- SQLite's fallback key choice once the largest key reaches 2^63 - 1: not modelled, keys are unbounded.
