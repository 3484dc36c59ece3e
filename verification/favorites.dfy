/** The two favorites relations (user x person, user x planet) as tables of rows, and the
    check-then-act steps that add and remove one (user, item) pair. Both relations share this
    logic; only the texts of their replies differ. */
module Favorites {
  import opened Responses

  /** One relation row: `id` is its primary key, `itemId` the person or planet favorited. */
  datatype FavoriteRow = FavoriteRow(id: int, userId: int, itemId: int) {
    predicate IsPair(u: int, i: int) {
      userId == u && itemId == i
    }
  }

  /** A relation table: its rows in storage order and the next primary key the database hands out. */
  datatype Table = Table(rows: seq<FavoriteRow>, nextId: int)

  /** A table as the database starts it: no rows, keys counted from 1. */
  const EmptyTable := Table([], 1)

  /** Every key was handed out before, keys are distinct, and no two rows hold the same
      (user, item) pair. */
  predicate TableValid(t: Table) {
    && (forall k :: 0 <= k < |t.rows| ==> t.rows[k].id < t.nextId)
    && (forall j, k :: 0 <= j < k < |t.rows| ==> t.rows[j].id != t.rows[k].id)
    && (forall j, k :: 0 <= j < k < |t.rows| ==>
          !t.rows[k].IsPair(t.rows[j].userId, t.rows[j].itemId))
  }

  predicate HasPair(rows: seq<FavoriteRow>, u: int, i: int) {
    exists k :: 0 <= k < |rows| && rows[k].IsPair(u, i)
  }

  /** `filter_by(user_id=u, <item>_id=i).first()`: where the first row holding the pair is. */
  function First(rows: seq<FavoriteRow>, u: int, i: int): (r: Option<nat>)
    ensures r.None? <==> !HasPair(rows, u, i)
    ensures r.Some? ==> r.value < |rows| && rows[r.value].IsPair(u, i)
    ensures r.Some? ==> forall k :: 0 <= k < r.value ==> !rows[k].IsPair(u, i)
  {
    if rows == [] then None
    else if rows[0].IsPair(u, i) then Some(0)
    else
      match First(rows[1..], u, i)
      case None => None
      case Some(k) => Some(k + 1)
  }

  /** `filter_by(user_id=u).all()`: the rows of user u, in storage order. A user without rows,
      known or not, gets the empty sequence. */
  function FilterByUser(rows: seq<FavoriteRow>, u: int): (r: seq<FavoriteRow>)
    ensures forall x :: x in r <==> x in rows && x.userId == u
    ensures r == [] <==> forall k :: 0 <= k < |rows| ==> rows[k].userId != u
  {
    if rows == [] then []
    else if rows[0].userId == u then [rows[0]] + FilterByUser(rows[1..], u)
    else FilterByUser(rows[1..], u)
  }

  /** Filtering keeps storage order: it distributes over concatenation of tables. */
  lemma {:induction false} FilterConcat(a: seq<FavoriteRow>, b: seq<FavoriteRow>, u: int)
    ensures FilterByUser(a + b, u) == FilterByUser(a, u) + FilterByUser(b, u)
  {
    if a != [] {
      assert (a + b)[1..] == a[1..] + b;
      FilterConcat(a[1..], b, u);
    } else {
      assert a + b == b;
    }
  }

  /** The add handler: refuse a pair that is already there with 400, else append a row with a
      fresh key and confirm with 200. Whatever the branch, the pair is present afterwards. */
  function AddFavorite(t: Table, u: int, i: int, msgs: Messages): (res: (Response<string>, Table))
    ensures res.0.Ok? <==> !HasPair(t.rows, u, i)
    ensures !res.0.Ok? ==> res == (AlreadyExists(msgs.duplicate), t) && res.0.Status() == 400
    ensures res.0.Ok? ==>
      && res.0 == Ok(msgs.added)
      && |res.1.rows| == |t.rows| + 1
      && res.1.rows[..|t.rows|] == t.rows
      && res.1.rows[|t.rows|].IsPair(u, i)
    ensures HasPair(res.1.rows, u, i)
    ensures TableValid(t) ==> TableValid(res.1)
  {
    if First(t.rows, u, i).Some? then
      (AlreadyExists(msgs.duplicate), t)
    else
      var rows' := t.rows + [FavoriteRow(t.nextId, u, i)];
      assert rows'[|t.rows|].IsPair(u, i);
      (Ok(msgs.added), Table(rows', t.nextId + 1))
  }

  /** Removing the row at k keeps every other row and its order. */
  lemma RemoveAtKeepsOthers(rows: seq<FavoriteRow>, k: nat)
    requires k < |rows|
    ensures forall x :: x in rows[..k] + rows[k + 1..] ==> x in rows
    ensures forall j :: 0 <= j < |rows| && j != k ==> rows[j] in rows[..k] + rows[k + 1..]
  {
    var rest := rows[..k] + rows[k + 1..];
    forall j | 0 <= j < |rows| && j != k
      ensures rows[j] in rest
    {
      if j < k {
        assert rest[j] == rows[j];
      } else {
        assert rest[j - 1] == rows[j];
      }
    }
  }

  /** In a valid table, removing the row at k leaves a valid table without that row's pair. */
  lemma {:induction false} RemoveAtValid(t: Table, k: nat)
    requires k < |t.rows|
    ensures TableValid(t) ==>
      && TableValid(Table(t.rows[..k] + t.rows[k + 1..], t.nextId))
      && !HasPair(t.rows[..k] + t.rows[k + 1..], t.rows[k].userId, t.rows[k].itemId)
  {
    if !TableValid(t) {
      return;
    }
    var rest := t.rows[..k] + t.rows[k + 1..];
    // index of a surviving row in the old table
    assert forall j :: 0 <= j < |rest| ==> rest[j] == t.rows[if j < k then j else j + 1];
  }

  /** The delete handler: refuse an absent pair with 400, else delete the row holding it and
      confirm with 200. Every other row stays, in order; in a valid table the pair is gone. */
  function RemoveFavorite(t: Table, u: int, i: int, msgs: Messages): (res: (Response<string>, Table))
    ensures res.0.Ok? <==> HasPair(t.rows, u, i)
    ensures !res.0.Ok? ==> res == (NotFound(msgs.missing, StatusBadRequest), t) && res.0.Status() == 400
    ensures res.0.Ok? ==>
      && res.0 == Ok(msgs.removed)
      && res.1.nextId == t.nextId
      && |res.1.rows| == |t.rows| - 1
      && exists k :: 0 <= k < |t.rows| && t.rows[k].IsPair(u, i) && res.1.rows == t.rows[..k] + t.rows[k + 1..]
    ensures forall x :: x in res.1.rows ==> x in t.rows
    ensures forall x :: x in t.rows && !x.IsPair(u, i) ==> x in res.1.rows
    ensures TableValid(t) ==> TableValid(res.1) && !HasPair(res.1.rows, u, i)
  {
    match First(t.rows, u, i)
    case None => (NotFound(msgs.missing, StatusBadRequest), t)
    case Some(k) =>
      RemoveAtKeepsOthers(t.rows, k);
      RemoveAtValid(t, k);
      (Ok(msgs.removed), Table(t.rows[..k] + t.rows[k + 1..], t.nextId))
  }

  /** A pair appended to a table that lacks it is found in the appended row. */
  lemma FirstOfAppended(rows: seq<FavoriteRow>, row: FavoriteRow)
    requires !HasPair(rows, row.userId, row.itemId)
    ensures First(rows + [row], row.userId, row.itemId) == Some(|rows|)
  {
    assert (rows + [row])[|rows|] == row;
    assert forall k :: 0 <= k < |rows| ==> (rows + [row])[k] == rows[k];
  }

  /** Add, remove, add on one pair that is absent: all three succeed; the removal restores the
      table's rows, and the second add appends the pair again under the next key. */
  lemma {:induction false} AddRemoveAddCycle(t: Table, u: int, i: int, msgs: Messages)
    requires !HasPair(t.rows, u, i)
    ensures
      var (r1, t1) := AddFavorite(t, u, i, msgs);
      var (r2, t2) := RemoveFavorite(t1, u, i, msgs);
      var (r3, t3) := AddFavorite(t2, u, i, msgs);
      && r1 == Ok(msgs.added) && r2 == Ok(msgs.removed) && r3 == Ok(msgs.added)
      && t2.rows == t.rows
      && t3.rows == t.rows + [FavoriteRow(t.nextId + 1, u, i)]
  {
    var n := |t.rows|;
    var row := FavoriteRow(t.nextId, u, i);
    var t1 := AddFavorite(t, u, i, msgs).1;
    assert t1 == Table(t.rows + [row], t.nextId + 1);
    FirstOfAppended(t.rows, row);
    var t2 := RemoveFavorite(t1, u, i, msgs).1;
    assert t2 == Table(t1.rows[..n] + t1.rows[n + 1..], t.nextId + 1);
    assert t1.rows[..n] + t1.rows[n + 1..] == t.rows;
  }

  /** A user's favorites list grows by exactly one on a successful add for that user and is
      otherwise unchanged; other users' lists never change. */
  lemma {:induction false} AddCount(t: Table, u: int, i: int, msgs: Messages, v: int)
    ensures
      var (r, t') := AddFavorite(t, u, i, msgs);
      |FilterByUser(t'.rows, v)| == |FilterByUser(t.rows, v)| + (if r.Ok? && v == u then 1 else 0)
  {
    var (r, t') := AddFavorite(t, u, i, msgs);
    if r.Ok? {
      var row := FavoriteRow(t.nextId, u, i);
      assert t'.rows == t.rows + [row];
      FilterConcat(t.rows, [row], v);
      assert FilterByUser([row], v) == if v == u then [row] else [];
    }
  }

  /** Deleting the row at k takes exactly that row out of its user's list. */
  lemma {:induction false} FilterRemoveAt(rows: seq<FavoriteRow>, k: nat, v: int)
    requires k < |rows|
    ensures |FilterByUser(rows[..k] + rows[k + 1..], v)| + (if rows[k].userId == v then 1 else 0)
         == |FilterByUser(rows, v)|
  {
    var row := rows[k];
    assert rows == rows[..k] + [row] + rows[k + 1..];
    FilterConcat(rows[..k] + [row], rows[k + 1..], v);
    FilterConcat(rows[..k], [row], v);
    FilterConcat(rows[..k], rows[k + 1..], v);
    assert FilterByUser([row], v) == if row.userId == v then [row] else [];
  }

  /** A user's favorites list shrinks by exactly one on a successful delete for that user and is
      otherwise unchanged; other users' lists never change. */
  lemma {:induction false} RemoveCount(t: Table, u: int, i: int, msgs: Messages, v: int)
    ensures
      var (r, t') := RemoveFavorite(t, u, i, msgs);
      |FilterByUser(t'.rows, v)| + (if r.Ok? && v == u then 1 else 0) == |FilterByUser(t.rows, v)|
  {
    var f := First(t.rows, u, i);
    if f.Some? {
      FilterRemoveAt(t.rows, f.value, v);
    }
  }
}
