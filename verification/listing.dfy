/**
 * The `index` listing: the actor's notes, in table order, paged with an
 * SQL `OFFSET` and `LIMIT`, together with how many notes the actor has.
 *
 * The offset and the page size reach the query as whatever integers the
 * query string parses to, negative ones included. SQLite reads a negative
 * `OFFSET` as 0 and a negative `LIMIT` as no limit at all.
 */
module Listing {
  import opened Tables
  import opened Schema

  /** `Note.select().where(Note.user == actor)`: the actor's notes in table order. */
  function OwnedBy(notes: Table<NoteRecord>, actor: Id): (r: Table<NoteRecord>)
    ensures |r| <= |notes|
    ensures forall n :: n in r <==> n in notes && n.fields.user == actor
  {
    if |notes| == 0 then []
    else
      var front := notes[..|notes| - 1];
      var last := notes[|notes| - 1];
      assert notes == front + [last];
      OwnedBy(front, actor) + (if last.fields.user == actor then [last] else [])
  }

  /** On a table with increasing keys the owner filter keeps increasing keys: table order, each note once. */
  lemma {:induction false} OwnedByIncreasing(notes: Table<NoteRecord>, actor: Id)
    requires Increasing(notes)
    ensures Increasing(OwnedBy(notes, actor))
  {
    if |notes| > 0 {
      var front := notes[..|notes| - 1];
      var last := notes[|notes| - 1];
      OwnedByIncreasing(front, actor);
      var owned := OwnedBy(front, actor);
      forall k | 0 <= k < |owned|
        ensures owned[k].id < last.id
      {
        assert owned[k] in front;
        var j :| 0 <= j < |front| && front[j] == owned[k];
        assert notes[j] == owned[k];
      }
    }
  }

  /** With keys increasing, the owner filter is the only increasing table holding exactly the actor's notes. */
  lemma OwnedByIsDetermined(notes: Table<NoteRecord>, actor: Id, r: Table<NoteRecord>)
    requires Increasing(notes) && Increasing(r)
    requires forall n :: n in r <==> n in notes && n.fields.user == actor
    ensures r == OwnedBy(notes, actor)
  {
    OwnedByIncreasing(notes, actor);
    IncreasingDeterminedByMembers(r, OwnedBy(notes, actor));
  }

  /** The row SQLite starts from: a negative `OFFSET` counts as 0. */
  function Start(offset: int): nat {
    if offset < 0 then 0 else offset
  }

  /** Whether the row of rank `rank` falls inside `OFFSET offset LIMIT limit`. */
  predicate InWindow(rank: nat, offset: int, limit: int) {
    Start(offset) <= rank && (limit < 0 || rank < Start(offset) + limit)
  }

  /**
   * `OFFSET offset LIMIT limit` over `xs`: the contiguous run starting at
   * `offset` (0 when negative), at most `limit` long (unbounded when negative).
   */
  function Window<T>(xs: seq<T>, offset: int, limit: int): (w: seq<T>)
    ensures 0 <= limit ==> |w| <= limit
    ensures offset >= |xs| ==> w == []
    ensures offset <= 0 && limit < 0 ==> w == xs
    ensures Start(offset) < |xs| ==>
      |w| == if 0 <= limit < |xs| - Start(offset) then limit else |xs| - Start(offset)
    ensures forall i :: 0 <= i < |w| ==> Start(offset) + i < |xs| && w[i] == xs[Start(offset) + i]
  {
    var lo := if Start(offset) < |xs| then Start(offset) else |xs|;
    var hi := if 0 <= limit && lo + limit < |xs| then lo + limit else |xs|;
    xs[lo..hi]
  }

  /** One page of a listing and the number of notes it is drawn from. */
  datatype Page = Page(items: seq<Note>, total: nat)

  /** The page `index` renders: a window of the actor's notes and their count. */
  function Listing(notes: Table<NoteRecord>, actor: Id, offset: int, perPage: int): (p: Page)
    ensures forall n :: n in p.items ==> n in notes && n.fields.user == actor
    ensures 0 <= perPage ==> |p.items| <= perPage
    ensures offset >= p.total ==> p.items == []
    ensures p.total == |OwnedBy(notes, actor)|
    ensures Start(offset) < p.total ==>
      |p.items| == if 0 <= perPage < p.total - Start(offset) then perPage else p.total - Start(offset)
    ensures forall i :: 0 <= i < |p.items| ==>
      Start(offset) + i < p.total && p.items[i] == OwnedBy(notes, actor)[Start(offset) + i]
  {
    var owned := OwnedBy(notes, actor);
    Page(Window(owned, offset, perPage), |owned|)
  }

  /** On a table with increasing keys, a page lists its notes in table order. */
  lemma ListingInTableOrder(notes: Table<NoteRecord>, actor: Id, offset: int, perPage: int)
    requires Increasing(notes)
    ensures Increasing(Listing(notes, actor, offset, perPage).items)
  {
    OwnedByIncreasing(notes, actor);
  }

  /** A negative offset gives the first page, and a negative page size as well gives every note of the actor. */
  lemma NegativeBoundsClamp(notes: Table<NoteRecord>, actor: Id, offset: int, perPage: int)
    requires offset < 0
    ensures Listing(notes, actor, offset, perPage) == Listing(notes, actor, 0, perPage)
    ensures perPage < 0 ==> Listing(notes, actor, offset, perPage).items == OwnedBy(notes, actor)
  {
  }

  /** One more element moves a window forward by that element exactly when its rank falls inside it. */
  lemma WindowSnoc<T>(xs: seq<T>, x: T, offset: int, limit: int)
    ensures Window(xs + [x], offset, limit)
      == Window(xs, offset, limit) + (if InWindow(|xs|, offset, limit) then [x] else [])
  {
  }

  /** Scanning one more row of the note table adds it to the owner filter exactly when the actor owns it. */
  lemma OwnedBySnoc(notes: Table<NoteRecord>, actor: Id, k: nat)
    requires k < |notes|
    ensures OwnedBy(notes[..k + 1], actor)
      == OwnedBy(notes[..k], actor) + (if notes[k].fields.user == actor then [notes[k]] else [])
  {
    assert notes[..k + 1][..k] == notes[..k];
  }

  /** One step of the scan: how the owner filter and its window grow by the next row. */
  lemma ScanStep(notes: Table<NoteRecord>, actor: Id, offset: int, perPage: int, k: nat, owned: seq<Note>)
    requires k < |notes| && owned == OwnedBy(notes[..k], actor)
    ensures notes[k].fields.user == actor ==>
      && OwnedBy(notes[..k + 1], actor) == owned + [notes[k]]
      && Window(owned + [notes[k]], offset, perPage)
         == Window(owned, offset, perPage) + (if InWindow(|owned|, offset, perPage) then [notes[k]] else [])
    ensures notes[k].fields.user != actor ==> OwnedBy(notes[..k + 1], actor) == owned
  {
    OwnedBySnoc(notes, actor, k);
    WindowSnoc(owned, notes[k], offset, perPage);
  }

  /**
   * The query as one scan of the note table: count the actor's notes and
   * keep those whose rank among them falls inside the window.
   */
  method ListNotes(notes: Table<NoteRecord>, actor: Id, offset: int, perPage: int) returns (page: Page)
    ensures page.total == |OwnedBy(notes, actor)|
    ensures page.items == Window(OwnedBy(notes, actor), offset, perPage)
    ensures page == Listing(notes, actor, offset, perPage)
  {
    var items: seq<Note> := [];
    var total := 0;
    ghost var owned: seq<Note> := [];
    var k := 0;
    while k < |notes|
      invariant k <= |notes|
      invariant owned == OwnedBy(notes[..k], actor)
      invariant total == |owned|
      invariant items == Window(owned, offset, perPage)
    {
      var n := notes[k];
      ScanStep(notes, actor, offset, perPage, k, owned);
      if n.fields.user == actor {
        if InWindow(total, offset, perPage) {
          items := items + [n];
        }
        total := total + 1;
        owned := owned + [n];
      }
      k := k + 1;
    }
    assert notes[..k] == notes;
    page := Page(items, total);
  }

  /** Seven notes of one owner, five per page: the first page holds five, the second the last two. */
  lemma SevenNotesTwoPages(notes: Table<NoteRecord>, actor: Id)
    requires |notes| == 7
    requires forall i :: 0 <= i < 7 ==> notes[i].fields.user == actor
    ensures Listing(notes, actor, 0, 5).items == notes[..5]
    ensures Listing(notes, actor, 5, 5).items == notes[5..]
    ensures Listing(notes, actor, 5, 5).total == 7
  {
    AllOwned(notes, actor);
  }

  /** When every note is the actor's, the listing draws from the whole table. */
  lemma {:induction false} AllOwned(notes: Table<NoteRecord>, actor: Id)
    requires forall i :: 0 <= i < |notes| ==> notes[i].fields.user == actor
    ensures OwnedBy(notes, actor) == notes
  {
    if |notes| > 0 {
      AllOwned(notes[..|notes| - 1], actor);
      assert notes == notes[..|notes| - 1] + [notes[|notes| - 1]];
    }
  }
}
