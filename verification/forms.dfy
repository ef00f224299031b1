/**
 * The note form: three text fields, each guarded by a WTForms `Length`
 * validator. The form is valid when no field has an error.
 */
module Forms {

  datatype NoteForm = NoteForm(title: string, content: string, category: string)

  datatype Field = Title | Content | CategoryName

  /** The `max` a `Length` validator is given when it has no upper bound. */
  const Unbounded: int := -1

  /**
   * WTForms `Length(min, max)`: the value is rejected when it is shorter
   * than `min`, or when `max` is not `Unbounded` and it is longer than `max`.
   * Lengths count characters (Unicode scalar values), as Python's `len` does.
   */
  predicate LengthOk(s: string, min: int, max: int) {
    !(|s| < min || (max != Unbounded && |s| > max))
  }

  /** The fields whose validator rejects the submitted value. */
  function Errors(f: NoteForm): (errs: set<Field>)
    ensures Title in errs <==> !(1 <= |f.title| <= 255)
    ensures Content in errs <==> |f.content| == 0
    ensures CategoryName in errs <==> |f.category| == 0
  {
    (if LengthOk(f.title, 1, 255) then {} else {Title})
    + (if LengthOk(f.content, 1, Unbounded) then {} else {Content})
    + (if LengthOk(f.category, 1, Unbounded) then {} else {CategoryName})
  }

  /** `form.validate()`: true exactly when every field passes its validator. */
  function Validate(f: NoteForm): (ok: bool)
    ensures ok <==> 1 <= |f.title| <= 255 && 1 <= |f.content| && 1 <= |f.category|
  {
    Errors(f) == {}
  }

  /** A title of 255 characters is accepted and one of 256 is not, whatever the other fields hold. */
  lemma TitleBoundIsInclusive(f: NoteForm)
    requires 1 <= |f.content| && 1 <= |f.category|
    ensures |f.title| == 255 ==> Validate(f)
    ensures |f.title| == 256 ==> !Validate(f) && Errors(f) == {Title}
  {
  }

  /** A single rejected field makes the whole form invalid, and it is the one reported. */
  lemma OneBadFieldInvalidates(f: NoteForm, bad: Field)
    requires bad == Title ==> !(1 <= |f.title| <= 255)
    requires bad == Content ==> |f.content| == 0
    requires bad == CategoryName ==> |f.category| == 0
    ensures !Validate(f)
    ensures bad in Errors(f)
  {
  }
}
