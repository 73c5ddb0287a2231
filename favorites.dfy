/**
 * The favourites table (models.py) and the two helpers of app.py that change
 * it, `save_favorite` and `remove_favorite`, over an in-memory table in place
 * of the SQLite file. A row's key is assigned by the database on insert: one
 * more than the largest key in the table, or 1 when the table is empty (the
 * rowid rule of an `INTEGER PRIMARY KEY` column).
 */
module Favorites {
  import opened Wrappers

  /** One persisted favourite: its key and the saved URL, stored verbatim. */
  datatype FavoriteDog = FavoriteDog(id: int, url: string)

  /** Keys strictly increase along the table, so no key occurs twice. */
  predicate Increasing(rows: seq<FavoriteDog>)
  {
    forall i, j :: 0 <= i < j < |rows| ==> rows[i].id < rows[j].id
  }

  /** Some row carries key `id`. */
  predicate HasId(rows: seq<FavoriteDog>, id: int)
  {
    exists k :: 0 <= k < |rows| && rows[k].id == id
  }

  /** The key the database assigns to the next inserted row. */
  function NextRowId(rows: seq<FavoriteDog>): (id: int)
    ensures forall k :: 0 <= k < |rows| ==> rows[k].id < id
    ensures rows == [] ==> id == 1
    ensures rows != [] ==> HasId(rows, id - 1)
  {
    if rows == [] then 1
    else
      var last := rows[|rows| - 1].id + 1;
      var front := rows[..|rows| - 1];
      if front == [] then last
      else
        var rest := NextRowId(front);
        assert forall k :: 0 <= k < |front| ==> front[k] == rows[k];
        if last > rest then last else rest
  }

  /** `session.get(FavoriteDog, id)` by position: where the row with key `id` sits, if anywhere. */
  function Locate(rows: seq<FavoriteDog>, id: int): (r: Option<nat>)
    ensures r.Some? ==> r.value < |rows| && rows[r.value].id == id
    ensures r.None? <==> !HasId(rows, id)
  {
    if rows == [] then None
    else if rows[0].id == id then Some(0)
    else match Locate(rows[1..], id)
      case None =>
        assert forall k :: 1 <= k < |rows| ==> rows[k] == rows[1..][k - 1];
        None
      case Some(k) => Some(k + 1)
  }

  /** The table with every row keyed `id` deleted, the others kept in order. */
  function Without(rows: seq<FavoriteDog>, id: int): (r: seq<FavoriteDog>)
    ensures forall x :: x in r <==> x in rows && x.id != id
    ensures Increasing(rows) ==> Increasing(r)
  {
    if rows == [] then []
    else
      var rest := Without(rows[1..], id);
      assert Increasing(rows) ==> Increasing(rows[1..]);
      if rows[0].id == id then rest else [rows[0]] + rest
  }

  /** Deleting nothing: a key that no row carries leaves the table as it is. */
  lemma {:induction false} WithoutAbsent(rows: seq<FavoriteDog>, id: int)
    requires !HasId(rows, id)
    ensures Without(rows, id) == rows
  {
    if rows != [] {
      assert !HasId(rows[1..], id) by {
        forall k | 0 <= k < |rows[1..]| ensures rows[1..][k].id != id {
          assert rows[1..][k] == rows[k + 1];
        }
      }
      WithoutAbsent(rows[1..], id);
    }
  }

  /** When keys strictly increase along the table, cutting out the row at position `k` deletes exactly its key. */
  lemma {:induction false} DeleteAtIsWithout(rows: seq<FavoriteDog>, k: nat)
    requires Increasing(rows)
    requires k < |rows|
    ensures rows[..k] + rows[k + 1..] == Without(rows, rows[k].id)
  {
    var tail := rows[1..];
    IncreasingTail(rows);
    if k == 0 {
      assert !HasId(tail, rows[0].id);
      WithoutAbsent(tail, rows[0].id);
    } else {
      DeleteAtIsWithout(tail, k - 1);
      assert tail[k - 1] == rows[k];
      assert rows[0].id != rows[k].id;
      SpliceAfterHead(rows, k);
    }
  }

  /** Dropping the first row keeps the keys increasing. */
  lemma IncreasingTail(rows: seq<FavoriteDog>)
    requires Increasing(rows) && rows != []
    ensures Increasing(rows[1..])
  {
    forall i, j | 0 <= i < j < |rows| - 1 ensures rows[1..][i].id < rows[1..][j].id {
      assert rows[1..][i] == rows[i + 1] && rows[1..][j] == rows[j + 1];
    }
  }

  /** Cutting out a position past the head is cutting it out of the tail. */
  lemma SpliceAfterHead<T>(s: seq<T>, k: nat)
    requires 0 < k < |s|
    ensures s[..k] + s[k + 1..] == [s[0]] + (s[1..][..k - 1] + s[1..][k..])
  {
    assert s[..k] == [s[0]] + s[1..][..k - 1];
    assert s[k + 1..] == s[1..][k..];
  }

  /** The favourites table as a mutable object, one method per helper of app.py. */
  class FavoriteStore {
    var rows: seq<FavoriteDog>

    ghost predicate Valid()
      reads this
    {
      Increasing(rows)
    }

    /** An empty table, as `create_all` leaves a fresh database file. */
    constructor ()
      ensures Valid() && rows == []
    {
      rows := [];
    }

    /** `select(FavoriteDog)`, `.all()`: every row, in key order. */
    method List() returns (all: seq<FavoriteDog>)
      requires Valid()
      ensures all == rows && Increasing(all)
    {
      all := rows;
    }

    /** `session.get(FavoriteDog, id)`: the row with that key, if there is one. */
    method Get(id: int) returns (row: Option<FavoriteDog>)
      requires Valid()
      ensures row.Some? <==> HasId(rows, id)
      ensures row.Some? ==> row.value in rows && row.value.id == id
    {
      match Locate(rows, id)
      case None => row := None;
      case Some(k) => row := Some(rows[k]);
    }

    /**
     * `save_favorite`: insert one row holding `url` verbatim under a key no
     * existing row has; the existing rows are untouched.
     */
    method Save(url: string)
      requires Valid()
      modifies this
      ensures Valid()
      ensures rows == old(rows) + [FavoriteDog(NextRowId(old(rows)), url)]
      ensures !HasId(old(rows), rows[|rows| - 1].id)
    {
      rows := rows + [FavoriteDog(NextRowId(rows), url)];
    }

    /**
     * `remove_favorite`: delete the row keyed `id` if there is one; when there
     * is none the table is untouched and nothing fails.
     */
    method Remove(id: int)
      requires Valid()
      modifies this
      ensures Valid()
      ensures rows == Without(old(rows), id)
      ensures !HasId(rows, id)
      ensures forall x :: x in rows <==> x in old(rows) && x.id != id
      ensures !HasId(old(rows), id) ==> rows == old(rows)
    {
      match Locate(rows, id)
      case None =>
        WithoutAbsent(rows, id);
      case Some(k) =>
        DeleteAtIsWithout(rows, k);
        rows := rows[..k] + rows[k + 1..];
    }
  }
}
