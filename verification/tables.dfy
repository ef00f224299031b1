/**
 * The relational store's tables, as the rows of each table in rowid order.
 *
 * Every table of the application has an integer primary key (`id`), which
 * SQLite keeps as the rowid. An unordered `SELECT` scans a table in rowid
 * order, so "the first row that matches" is well defined here even when a
 * column that should be unique is not.
 */
module Tables {
  import opened Wrappers

  type Id = nat

  /** One row: its primary key and the remaining columns. */
  datatype Row<T> = Row(id: Id, fields: T)

  /** A table as its rows in rowid order. */
  type Table<T> = seq<Row<T>>

  /** Primary keys strictly increase along the table; in particular they are unique. */
  ghost predicate Increasing<T>(t: Table<T>) {
    forall i, j :: 0 <= i < j < |t| ==> t[i].id < t[j].id
  }

  /** Some row of `t` has primary key `id`. */
  predicate HasId<T>(t: Table<T>, id: Id) {
    exists i :: 0 <= i < |t| && t[i].id == id
  }

  /**
   * The key SQLite gives a new row of a table whose key is an
   * INTEGER PRIMARY KEY without AUTOINCREMENT: one more than the largest key
   * present, or 1 for an empty table.
   */
  function NextId<T>(t: Table<T>): (r: Id)
    ensures 1 <= r
    ensures forall i :: 0 <= i < |t| ==> t[i].id < r
    ensures r == 1 || HasId(t, r - 1)
  {
    if |t| == 0 then 1
    else
      var front := t[..|t| - 1];
      var m := NextId(front);
      assert forall i :: 0 <= i < |front| ==> front[i] == t[i];
      if t[|t| - 1].id < m then m else t[|t| - 1].id + 1
  }

  /** The position of the first row that satisfies `p`, if any: what `get_or_none` finds. */
  function FirstWhere<T>(t: Table<T>, p: Row<T> -> bool): (r: Option<nat>)
    ensures r.Some? ==> r.value < |t| && p(t[r.value])
    ensures r.Some? ==> forall j :: 0 <= j < r.value ==> !p(t[j])
    ensures r.None? <==> forall j :: 0 <= j < |t| ==> !p(t[j])
    decreases |t|
  {
    if |t| == 0 then None
    else if p(t[0]) then Some(0)
    else
      match FirstWhere(t[1..], p)
      case None => None
      case Some(k) => Some(k + 1)
  }

  /**
   * `DELETE FROM t WHERE p`: the rows that fail `p`. On a table with
   * increasing keys the survivors keep increasing keys
   * (`DeleteWhereIncreasing`), which with their membership fixes their order
   * (`IncreasingDeterminedByMembers`).
   */
  function DeleteWhere<T(!new)>(t: Table<T>, p: Row<T> -> bool): (r: Table<T>)
    ensures |r| <= |t|
    ensures forall x :: x in r <==> x in t && !p(x)
    ensures (exists i :: 0 <= i < |t| && p(t[i])) ==> |r| < |t|
    decreases |t|
  {
    if |t| == 0 then []
    else
      var rest := DeleteWhere(t[1..], p);
      assert forall x :: x in t <==> x == t[0] || x in t[1..];
      assert forall i :: 1 <= i < |t| ==> t[i] == t[1..][i - 1];
      if p(t[0]) then rest else [t[0]] + rest
  }

  /** Appending a row whose key exceeds every key keeps keys increasing. */
  lemma AppendKeepsIncreasing<T>(t: Table<T>, row: Row<T>)
    requires Increasing(t)
    requires forall i :: 0 <= i < |t| ==> t[i].id < row.id
    ensures Increasing(t + [row])
  {
  }

  /** A table that only grew at its end still holds every key it held. */
  lemma GrowingKeepsIds<T>(t: Table<T>, t': Table<T>, id: Id)
    requires |t| <= |t'| && t'[..|t|] == t
    requires HasId(t, id)
    ensures HasId(t', id)
  {
    var k :| 0 <= k < |t| && t[k].id == id;
    assert t'[k] == t[k];
  }

  /** Deleting rows keeps the keys of the survivors increasing. */
  lemma {:induction false} DeleteWhereIncreasing<T(!new)>(t: Table<T>, p: Row<T> -> bool)
    requires Increasing(t)
    ensures Increasing(DeleteWhere(t, p))
    decreases |t|
  {
    if |t| > 0 {
      var rest := DeleteWhere(t[1..], p);
      DeleteWhereIncreasing(t[1..], p);
      if !p(t[0]) {
        var r := [t[0]] + rest;
        forall i, j | 0 <= i < j < |r|
          ensures r[i].id < r[j].id
        {
          if i == 0 {
            assert r[j] == rest[j - 1];
            assert rest[j - 1] in t[1..];
            var k :| 0 <= k < |t[1..]| && t[1..][k] == rest[j - 1];
            assert t[k + 1] == rest[j - 1];
          } else {
            assert r[i] == rest[i - 1] && r[j] == rest[j - 1];
          }
        }
      }
    }
  }

  /** Two tables with increasing keys and the same rows are the same table. */
  lemma {:induction false} IncreasingDeterminedByMembers<T(!new)>(a: Table<T>, b: Table<T>)
    requires Increasing(a) && Increasing(b)
    requires forall x :: x in a <==> x in b
    ensures a == b
    decreases |a|
  {
    if |a| > 0 || |b| > 0 {
      SameFirstRow(a, b);
      SameLaterRows(a, b);
      IncreasingDeterminedByMembers(a[1..], b[1..]);
      assert a == [a[0]] + a[1..] && b == [b[0]] + b[1..];
    }
  }

  /** Two non-empty increasing tables with the same rows start with the same row, the one of least key. */
  lemma SameFirstRow<T(!new)>(a: Table<T>, b: Table<T>)
    requires Increasing(a) && Increasing(b)
    requires forall x :: x in a <==> x in b
    requires |a| > 0 || |b| > 0
    ensures |a| > 0 && |b| > 0 && a[0] == b[0]
  {
    SameRowsSameEmptiness(a, b);
    assert a[0] in a && b[0] in b;
    var k :| 0 <= k < |b| && b[k] == a[0];
    var j :| 0 <= j < |a| && a[j] == b[0];
    assert a[0].id <= a[j].id && b[0].id <= b[k].id;
  }

  /** Two tables with the same rows are empty together. */
  lemma SameRowsSameEmptiness<T(!new)>(a: Table<T>, b: Table<T>)
    requires forall x :: x in a <==> x in b
    ensures |a| > 0 <==> |b| > 0
  {
    if |a| > 0 {
      assert a[0] in a;
    }
    if |b| > 0 {
      assert b[0] in b;
    }
  }

  /** Once the first rows agree, the remaining rows are the same too. */
  lemma SameLaterRows<T(!new)>(a: Table<T>, b: Table<T>)
    requires Increasing(a) && Increasing(b)
    requires forall x :: x in a <==> x in b
    requires |a| > 0 && |b| > 0 && a[0] == b[0]
    ensures forall x :: x in a[1..] <==> x in b[1..]
  {
    forall x | x in a[1..]
      ensures x in b[1..]
    {
      var i :| 0 <= i < |a[1..]| && a[1..][i] == x;
      assert a[i + 1] == x && x in a;
      var m :| 0 <= m < |b| && b[m] == x;
      assert b[1..][m - 1] == x;
    }
    forall x | x in b[1..]
      ensures x in a[1..]
    {
      var i :| 0 <= i < |b[1..]| && b[1..][i] == x;
      assert b[i + 1] == x && x in b;
      var m :| 0 <= m < |a| && a[m] == x;
      assert a[1..][m - 1] == x;
    }
  }

  /** `UPDATE t SET <all columns> = f WHERE p`: every row that satisfies `p` keeps its key and takes the columns `f`. */
  function UpdateWhere<T>(t: Table<T>, p: Row<T> -> bool, f: T): (r: Table<T>)
    ensures |r| == |t|
    ensures forall i :: 0 <= i < |t| ==> r[i].id == t[i].id
    ensures forall i :: 0 <= i < |t| && !p(t[i]) ==> r[i] == t[i]
    ensures forall i :: 0 <= i < |t| && p(t[i]) ==> r[i].fields == f
  {
    seq(|t|, i requires 0 <= i < |t| => if p(t[i]) then Row(t[i].id, f) else t[i])
  }
}
