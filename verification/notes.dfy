/**
 * The note handlers: the `owns_note` guard and the add, edit and delete
 * operations it protects, each as a transition of the whole store.
 */
module Notes {
  import opened Wrappers
  import opened Tables
  import opened Schema
  import Forms
  import Categories

  /**
   * `owns_note`: look the note up by id; no such note is a 404, a note owned
   * by someone else is turned away with a warning, and otherwise the guarded
   * handler runs on the note found (its position in the table).
   */
  function OwnsNote(notes: Table<NoteRecord>, noteId: Id, actor: Id): (r: Result<nat, Outcome>)
    ensures r.Failure? ==> r.error == NotFound || r.error == Forbidden
    ensures r == Failure(NotFound) <==> !HasId(notes, noteId)
    ensures r == Failure(Forbidden) ==>
      exists i :: 0 <= i < |notes| && notes[i].id == noteId && notes[i].fields.user != actor
    ensures r.Success? ==>
      r.value < |notes| && notes[r.value].id == noteId && notes[r.value].fields.user == actor
  {
    match FirstWhere(notes, (n: Note) => n.id == noteId)
    case None => Failure(NotFound)
    case Some(i) =>
      if notes[i].fields.user != actor then Failure(Forbidden) else Success(i)
  }

  /**
   * With unique note ids the guard's three answers are exactly: no such note,
   * a note of someone else, a note of the actor.
   */
  lemma OwnsNoteDecides(notes: Table<NoteRecord>, noteId: Id, actor: Id)
    requires Increasing(notes)
    ensures OwnsNote(notes, noteId, actor) == Failure(Forbidden) <==>
      exists i :: 0 <= i < |notes| && notes[i].id == noteId && notes[i].fields.user != actor
    ensures OwnsNote(notes, noteId, actor).Success? <==>
      exists i :: 0 <= i < |notes| && notes[i].id == noteId && notes[i].fields.user == actor
  {
  }

  /**
   * The `add_note` handler on a submitted form: when the form validates,
   * resolve the category and append a note owned by the actor; otherwise
   * write nothing.
   */
  function AddNote(s: Store, actor: Id, form: Forms.NoteForm): (r: Step)
    ensures r.outcome == Ok || r.outcome == Invalid
    ensures r.outcome == Ok <==> Forms.Validate(form)
    ensures r.outcome == Invalid ==> r.store == s
    ensures r.outcome == Ok ==>
      && r.store.users == s.users
      && |r.store.notes| == |s.notes| + 1
      && r.store.notes[..|s.notes|] == s.notes
      && !HasId(s.notes, r.store.notes[|s.notes|].id)
    ensures r.outcome == Ok ==>
      var n := r.store.notes[|s.notes|].fields;
      && n.user == actor && n.title == form.title && n.content == form.content
      && Categories.Names(r.store.categories, n.category, form.category)
    ensures r.outcome == Ok ==>
      |s.categories| <= |r.store.categories| && r.store.categories[..|s.categories|] == s.categories
    ensures r.outcome == Ok ==>
      (r.store.notes[|s.notes|].fields.category, r.store.categories)
        == Categories.GetOrCreate(s.categories, form.category)
  {
    if !Forms.Validate(form) then Step(Invalid, s)
    else
      var (cid, cats) := Categories.GetOrCreate(s.categories, form.category);
      var note := Row(NextId(s.notes), NoteRecord(form.title, form.content, cid, actor));
      var notes := s.notes + [note];
      assert notes[|s.notes|] == note;
      Step(Ok, s.(categories := cats, notes := notes))
  }

  /** The row filter of `edit_note` and `delete_note`: the rows whose key is `noteId`. */
  function HasKey(noteId: Id): Note -> bool {
    (n: Note) => n.id == noteId
  }

  /**
   * The `edit_note` handler on a submitted form, behind the guard: overwrite
   * the note's title, content and category. The form is not validated, so
   * empty fields are stored as they are.
   */
  function EditNote(s: Store, actor: Id, noteId: Id, title: string, content: string, category: string)
    : (r: Step)
    ensures r.outcome == Ok <==> OwnsNote(s.notes, noteId, actor).Success?
    ensures r.outcome != Ok ==> r.store == s && OwnsNote(s.notes, noteId, actor) == Failure(r.outcome)
    ensures r.outcome == Ok ==>
      && r.store.users == s.users
      && |s.categories| <= |r.store.categories| && r.store.categories[..|s.categories|] == s.categories
      && |r.store.notes| == |s.notes|
    ensures r.outcome == Ok ==> forall i :: 0 <= i < |s.notes| ==>
      && r.store.notes[i].id == s.notes[i].id
      && (s.notes[i].id != noteId ==> r.store.notes[i] == s.notes[i])
    ensures r.outcome == Ok ==> forall i :: 0 <= i < |s.notes| && s.notes[i].id == noteId ==>
      var n := r.store.notes[i].fields;
      && n.title == title && n.content == content && n.user == actor
      && Categories.Names(r.store.categories, n.category, category)
    ensures r.outcome == Ok ==> r.store.categories == Categories.GetOrCreate(s.categories, category).1
    ensures r.outcome == Ok ==> forall i :: 0 <= i < |s.notes| && s.notes[i].id == noteId ==>
      r.store.notes[i].fields.category == Categories.GetOrCreate(s.categories, category).0
  {
    match OwnsNote(s.notes, noteId, actor)
    case Failure(e) => Step(e, s)
    case Success(i) =>
      var (cid, cats) := Categories.GetOrCreate(s.categories, category);
      var edited := NoteRecord(title, content, cid, s.notes[i].fields.user);
      Step(Ok, s.(categories := cats, notes := UpdateWhere(s.notes, HasKey(noteId), edited)))
  }

  /**
   * The `delete_note` handler, behind the guard: remove the note. Every other
   * note stays, and so do the users and categories.
   */
  function DeleteNote(s: Store, actor: Id, noteId: Id): (r: Step)
    ensures r.outcome == Ok <==> OwnsNote(s.notes, noteId, actor).Success?
    ensures r.outcome != Ok ==> r.store == s && OwnsNote(s.notes, noteId, actor) == Failure(r.outcome)
    ensures r.outcome == Ok ==>
      && r.store.users == s.users && r.store.categories == s.categories
      && |r.store.notes| < |s.notes|
      && !HasId(r.store.notes, noteId)
      && forall n :: n in r.store.notes <==> n in s.notes && n.id != noteId
  {
    match OwnsNote(s.notes, noteId, actor)
    case Failure(e) => Step(e, s)
    case Success(i) =>
      var notes := DeleteWhere(s.notes, HasKey(noteId));
      assert forall k :: 0 <= k < |notes| ==> notes[k] in notes;
      Step(Ok, s.(notes := notes))
  }

  /** A note just added is found by the guard for its owner, with the title and content given. */
  lemma AddThenOwned(s: Store, actor: Id, form: Forms.NoteForm)
    requires Forms.Validate(form)
    ensures var s' := AddNote(s, actor, form).store;
            var n := s'.notes[|s.notes|];
            && OwnsNote(s'.notes, n.id, actor) == Success(|s.notes|)
            && n.fields.title == form.title && n.fields.content == form.content
  {
  }

  /** Once a delete succeeds, the guard answers 404 for that id. */
  lemma DeleteThenNotFound(s: Store, actor: Id, noteId: Id)
    requires DeleteNote(s, actor, noteId).outcome == Ok
    ensures OwnsNote(DeleteNote(s, actor, noteId).store.notes, noteId, actor) == Failure(NotFound)
  {
  }

  /** Editing never validates: an owner may store a form that `add_note` would reject. */
  lemma EditSkipsValidation(s: Store, actor: Id, noteId: Id, title: string, content: string, category: string)
    requires OwnsNote(s.notes, noteId, actor).Success?
    requires !Forms.Validate(Forms.NoteForm(title, content, category))
    ensures EditNote(s, actor, noteId, title, content, category).outcome == Ok
  {
  }

  /** Adding a note keeps the store well formed when the actor is a user of it. */
  lemma AddNoteKeepsWf(s: Store, actor: Id, form: Forms.NoteForm)
    requires Wf(s) && HasId(s.users, actor)
    ensures Wf(AddNote(s, actor, form).store)
  {
    if Forms.Validate(form) {
      var (cid, cats) := Categories.GetOrCreate(s.categories, form.category);
      var note := Row(NextId(s.notes), NoteRecord(form.title, form.content, cid, actor));
      var grown := s.(categories := cats);
      assert AddNote(s, actor, form).store == grown.(notes := s.notes + [note]);
      Categories.GetOrCreateKeepsTableWf(s.categories, form.category);
      CategoriesGrowKeepRefs(s, cats);
      AppendKeepsIncreasing(s.notes, note);
      AppendNoteKeepsRefs(grown, note);
    }
  }

  /** Editing a note keeps the store well formed. */
  lemma EditNoteKeepsWf(s: Store, actor: Id, noteId: Id, title: string, content: string, category: string)
    requires Wf(s)
    ensures Wf(EditNote(s, actor, noteId, title, content, category).store)
  {
    var r := EditNote(s, actor, noteId, title, content, category);
    if r.outcome == Ok {
      var s' := r.store;
      Categories.GetOrCreateKeepsTableWf(s.categories, category);
      forall i | 0 <= i < |s'.notes| && s.notes[i].id != noteId
        ensures HasId(s'.categories, s'.notes[i].fields.category)
      {
        var k :| 0 <= k < |s.categories| && s.categories[k].id == s.notes[i].fields.category;
        assert s'.categories[k] == s.categories[k];
      }
    }
  }

  /** Deleting a note keeps the store well formed. */
  lemma DeleteNoteKeepsWf(s: Store, actor: Id, noteId: Id)
    requires Wf(s)
    ensures Wf(DeleteNote(s, actor, noteId).store)
  {
    var r := DeleteNote(s, actor, noteId);
    if r.outcome == Ok {
      DeleteWhereIncreasing(s.notes, HasKey(noteId));
      var s' := r.store;
      forall i | 0 <= i < |s'.notes|
        ensures HasId(s'.categories, s'.notes[i].fields.category) && HasId(s'.users, s'.notes[i].fields.user)
      {
        assert s'.notes[i] in s.notes;
      }
    }
  }
}
