/**
 * `Category.get_or_create(name=...)`, which both the add and the edit
 * handlers use to turn a category name into a category id.
 */
module Categories {
  import opened Wrappers
  import opened Tables
  import opened Schema

  /** Some category is called `name`. */
  predicate HasName(cats: Table<CategoryRecord>, name: string) {
    exists i :: 0 <= i < |cats| && cats[i].fields.name == name
  }

  /** Some row of `cats` has key `id` and is called `name`. */
  ghost predicate Names(cats: Table<CategoryRecord>, id: Id, name: string) {
    exists i :: 0 <= i < |cats| && cats[i].id == id && cats[i].fields.name == name
  }

  /**
   * Look the name up; when a category has it, return the first such row's id
   * and leave the table alone; otherwise insert one new category and return
   * its id.
   */
  function GetOrCreate(cats: Table<CategoryRecord>, name: string): (r: (Id, Table<CategoryRecord>))
    ensures Names(r.1, r.0, name)
    ensures |cats| <= |r.1| && r.1[..|cats|] == cats
    ensures HasName(cats, name) ==> r.1 == cats
    ensures HasName(cats, name) ==>
      exists i :: 0 <= i < |cats| && cats[i].id == r.0 && cats[i].fields.name == name
        && forall j :: 0 <= j < i ==> cats[j].fields.name != name
    ensures !HasName(cats, name) ==>
      r.1 == cats + [Row(r.0, CategoryRecord(name))] && !HasId(cats, r.0)
  {
    match FirstWhere(cats, (c: Category) => c.fields.name == name)
    case Some(i) => (cats[i].id, cats)
    case None =>
      var id := NextId(cats);
      var grown := cats + [Row(id, CategoryRecord(name))];
      assert grown[|cats|] == Row(id, CategoryRecord(name));
      (id, grown)
  }

  /** Asking twice for the same name returns the same id and writes nothing the second time. */
  lemma GetOrCreateIdempotent(cats: Table<CategoryRecord>, name: string)
    ensures var (id, cats') := GetOrCreate(cats, name);
            GetOrCreate(cats', name) == (id, cats')
  {
  }

  /** A get-or-create keeps keys increasing and names unique. */
  lemma GetOrCreateKeepsTableWf(cats: Table<CategoryRecord>, name: string)
    requires Increasing(cats) && NamesUnique(cats)
    ensures Increasing(GetOrCreate(cats, name).1)
    ensures NamesUnique(GetOrCreate(cats, name).1)
  {
  }

  /** A table that only grew at its end still has every name it had. */
  lemma GrowingKeepsName(cats: Table<CategoryRecord>, cats': Table<CategoryRecord>, name: string)
    requires |cats| <= |cats'| && cats'[..|cats|] == cats
    requires HasName(cats, name)
    ensures HasName(cats', name)
  {
    var i :| 0 <= i < |cats| && cats[i].fields.name == name;
    assert cats'[i] == cats[i];
  }

  /** Resolve each name in turn, as a sequence of requests does. */
  function GetOrCreateAll(cats: Table<CategoryRecord>, names: seq<string>): (r: Table<CategoryRecord>)
    ensures |cats| <= |r| && r[..|cats|] == cats
    ensures forall k :: 0 <= k < |names| ==> HasName(r, names[k])
    decreases |names|
  {
    if |names| == 0 then cats
    else
      var next := GetOrCreate(cats, names[0]).1;
      var r := GetOrCreateAll(next, names[1..]);
      GrowingKeepsName(next, r, names[0]);
      assert forall k :: 1 <= k < |names| ==> names[k] == names[1..][k - 1];
      r
  }

  /**
   * In sequential use a table that starts with one category per name keeps
   * one category per name, however many names are resolved.
   */
  lemma {:induction false} SequentialUseKeepsNamesUnique(cats: Table<CategoryRecord>, names: seq<string>)
    requires Increasing(cats) && NamesUnique(cats)
    ensures Increasing(GetOrCreateAll(cats, names)) && NamesUnique(GetOrCreateAll(cats, names))
    decreases |names|
  {
    if |names| > 0 {
      GetOrCreateKeepsTableWf(cats, names[0]);
      SequentialUseKeepsNamesUnique(GetOrCreate(cats, names[0]).1, names[1..]);
    }
  }
}
