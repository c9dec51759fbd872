/** The row shape and the table operations that the Program store and the RFQ
    store have in common.

    Both stores keep one relational table whose rows carry an id, the owner's
    user id, two timestamps, and the columns copied from the resource's form.
    The table is modelled as the sequence of its rows (ids unique); queries
    are functions over that sequence, and the stores' mutating operations
    (see the Programs and Rfqs modules) are specified with the functions
    below. */
module Store {

  datatype Option<T> = None | Some(value: T)

  /** Exceptions that escape a store or a handler instead of a normal result. */
  datatype Exception =
    | ValidationError               // pydantic refuses to build the response model
    | AttributeError(name: string)  // an attribute the record type does not declare

  datatype Result<T> = Ok(value: T) | Err(error: Exception)

  /** The opaque JSON columns (`properties`, `summary_format`, `access_control`). */
  datatype Json =
    | JNull
    | JBool(b: bool)
    | JNumber(n: int)
    | JString(s: string)
    | JArray(items: seq<Json>)
    | JObject(members: map<string, Json>)

  type Dict = map<string, Json>

  /** `has_access(user_id, permission, access_control)`: its rules are not part of
      this model, so it enters every operation that consults it as a parameter. */
  type AccessCheck = (string, string, Option<Dict>) -> bool

  /** One row: the columns every resource has, and `fields`, the columns its form supplies. */
  datatype Row<F> = Row(id: string, userId: string, fields: F, createdAt: int, updatedAt: int)

  ghost predicate UniqueIds<F>(rows: seq<Row<F>>) {
    forall i, j :: 0 <= i < j < |rows| ==> rows[i].id != rows[j].id
  }

  /** The table invariant: the primary key is unique and no row was updated before it was created. */
  ghost predicate WellFormed<F>(rows: seq<Row<F>>) {
    && UniqueIds(rows)
    && forall i :: 0 <= i < |rows| ==> rows[i].createdAt <= rows[i].updatedAt
  }

  /** Position of the first row with key `id` (`filter(id == ...).first()`), or -1. */
  function IndexOf<F>(rows: seq<Row<F>>, id: string): (k: int)
    ensures -1 <= k < |rows|
    ensures 0 <= k ==> rows[k].id == id
    ensures forall j :: 0 <= j < |rows| && (k < 0 || j < k) ==> rows[j].id != id
  {
    if rows == [] then -1
    else if rows[0].id == id then 0
    else
      var k := IndexOf(rows[1..], id);
      if k < 0 then -1 else k + 1
  }

  /** Point lookup by primary key. */
  function Lookup<F>(rows: seq<Row<F>>, id: string): (r: Option<Row<F>>)
    ensures r.Some? <==> exists i :: 0 <= i < |rows| && rows[i].id == id
    ensures r.Some? ==> r.value in rows && r.value.id == id
  {
    var k := IndexOf(rows, id);
    if k < 0 then None else Some(rows[k])
  }

  /** In a table with unique keys, the lookup finds the one row that has the key. */
  lemma LookupFindsRow<F>(rows: seq<Row<F>>, i: int)
    requires UniqueIds(rows)
    requires 0 <= i < |rows|
    ensures Lookup(rows, rows[i].id) == Some(rows[i])
  {
    var k := IndexOf(rows, rows[i].id);
    assert k == i;
  }

  // ---------------------------------------------------------------------
  // ORDER BY updated_at DESC

  ghost predicate SortedDesc<F>(rows: seq<Row<F>>) {
    forall i, j :: 0 <= i < j < |rows| ==> rows[i].updatedAt >= rows[j].updatedAt
  }

  /** Every row of `rows` was last updated no later than `bound`. */
  ghost predicate UpdatedNoLaterThan<F>(rows: seq<Row<F>>, bound: int) {
    forall i :: 0 <= i < |rows| ==> rows[i].updatedAt <= bound
  }

  lemma UpdatedNoLaterThanMultiset<F>(s: seq<Row<F>>, t: seq<Row<F>>, bound: int)
    requires multiset(s) <= multiset(t)
    requires UpdatedNoLaterThan(t, bound)
    ensures UpdatedNoLaterThan(s, bound)
  {
    forall i | 0 <= i < |s| ensures s[i].updatedAt <= bound {
      assert s[i] in multiset(t);
    }
  }

  function InsertByUpdated<F>(r: Row<F>, sorted: seq<Row<F>>): (s: seq<Row<F>>)
    requires SortedDesc(sorted)
    ensures SortedDesc(s)
    ensures multiset(s) == multiset(sorted) + multiset{r}
  {
    if sorted == [] || r.updatedAt >= sorted[0].updatedAt then [r] + sorted
    else
      var rest := InsertByUpdated(r, sorted[1..]);
      assert sorted == [sorted[0]] + sorted[1..];
      assert UpdatedNoLaterThan(sorted[1..] + [r], sorted[0].updatedAt);
      UpdatedNoLaterThanMultiset(rest, sorted[1..] + [r], sorted[0].updatedAt);
      [sorted[0]] + rest
  }

  /** The rows in the order the database returns them for ORDER BY updated_at DESC.
      The order among equal timestamps is not specified by the query; this
      model fixes one, and the contract promises no more than the query does. */
  function OrderByUpdatedDesc<F>(rows: seq<Row<F>>): (s: seq<Row<F>>)
    ensures SortedDesc(s)
    ensures multiset(s) == multiset(rows)
  {
    if rows == [] then []
    else
      assert rows == [rows[0]] + rows[1..];
      InsertByUpdated(rows[0], OrderByUpdatedDesc(rows[1..]))
  }

  // ---------------------------------------------------------------------
  // List-comprehension filters

  /** `xs` is `ys` with some elements dropped and the rest kept in order. */
  ghost predicate IsSubsequence<T>(xs: seq<T>, ys: seq<T>)
    decreases |ys|
  {
    if xs == [] then true
    else if ys == [] then false
    else if xs[0] == ys[0] then IsSubsequence(xs[1..], ys[1..])
    else IsSubsequence(xs, ys[1..])
  }

  /** `[r for r in rows if keep(r)]` */
  function Select<F>(rows: seq<Row<F>>, keep: Row<F> -> bool): (s: seq<Row<F>>)
    ensures forall i :: 0 <= i < |s| ==> s[i] in rows && keep(s[i])
    ensures forall i :: 0 <= i < |rows| && keep(rows[i]) ==> rows[i] in s
    ensures IsSubsequence(s, rows)
  {
    if rows == [] then []
    else
      var rest := Select(rows[1..], keep);
      assert rows == [rows[0]] + rows[1..];
      if keep(rows[0]) then
        assert ([rows[0]] + rest)[1..] == rest;
        [rows[0]] + rest
      else
        assert rest != [] ==> rest[0] != rows[0];
        rest
  }

  /** A filtered listing keeps the order of what it filters. */
  lemma {:induction false} SelectKeepsOrder<F>(rows: seq<Row<F>>, keep: Row<F> -> bool)
    requires SortedDesc(rows)
    ensures SortedDesc(Select(rows, keep))
  {
    if rows != [] {
      SelectKeepsOrder(rows[1..], keep);
      var rest := Select(rows[1..], keep);
      forall j | 0 <= j < |rest| ensures rows[0].updatedAt >= rest[j].updatedAt {
        var m :| 0 <= m < |rows[1..]| && rows[1..][m] == rest[j];
        assert rows[m + 1] == rest[j];
      }
    }
  }

  /** A filtered listing of a table with unique keys has unique keys. */
  lemma {:induction false} SelectKeepsUniqueIds<F>(rows: seq<Row<F>>, keep: Row<F> -> bool)
    requires UniqueIds(rows)
    ensures UniqueIds(Select(rows, keep))
  {
    if rows != [] {
      SelectKeepsUniqueIds(rows[1..], keep);
      var rest := Select(rows[1..], keep);
      forall j | 0 <= j < |rest| ensures rows[0].id != rest[j].id {
        var m :| 0 <= m < |rows[1..]| && rows[1..][m] == rest[j];
        assert rows[m + 1] == rest[j];
      }
    }
  }

  /** Filtering the ordered listing: the result is ordered, in listing order,
      and holds exactly the rows of the table that pass the filter. */
  lemma FilteredListing<F>(rows: seq<Row<F>>, keep: Row<F> -> bool)
    ensures var s := Select(OrderByUpdatedDesc(rows), keep);
      && SortedDesc(s)
      && (forall i :: 0 <= i < |s| ==> s[i] in rows && keep(s[i]))
      && (forall i :: 0 <= i < |rows| && keep(rows[i]) ==> rows[i] in s)
  {
    var listing := OrderByUpdatedDesc(rows);
    SelectKeepsOrder(listing, keep);
    var s := Select(listing, keep);
    forall i | 0 <= i < |s| ensures s[i] in rows {
      assert s[i] in multiset(listing);
    }
    forall i | 0 <= i < |rows| && keep(rows[i]) ensures rows[i] in s {
      assert rows[i] in multiset(listing);
      var m :| 0 <= m < |listing| && listing[m] == rows[i];
    }
  }

  /** The table after `DELETE ... WHERE id = :id`. */
  function Remove<F>(rows: seq<Row<F>>, id: string): (s: seq<Row<F>>)
  {
    Select(rows, (r: Row<F>) => r.id != id)
  }

  /** The table after the row with key `id` (if any) gets the new form columns and timestamp. */
  function Overwrite<F>(rows: seq<Row<F>>, id: string, fields: F, now: int): (s: seq<Row<F>>)
    ensures |s| == |rows|
  {
    var k := IndexOf(rows, id);
    if k < 0 then rows else rows[k := rows[k].(fields := fields, updatedAt := now)]
  }

  // ---------------------------------------------------------------------
  // What the three mutations do to point lookups

  /** A filter applied twice keeps what it kept the first time. */
  lemma {:induction false} SelectIdempotent<F>(rows: seq<Row<F>>, keep: Row<F> -> bool)
    ensures Select(Select(rows, keep), keep) == Select(rows, keep)
  {
    if rows != [] {
      SelectIdempotent(rows[1..], keep);
    }
  }

  /** Deleting twice leaves the same table as deleting once. */
  lemma RemoveIdempotent<F>(rows: seq<Row<F>>, id: string)
    ensures Remove(Remove(rows, id), id) == Remove(rows, id)
  {
    SelectIdempotent(rows, (r: Row<F>) => r.id != id);
  }

  /** After a delete no row has the key, and every other key finds the row it found before. */
  lemma {:induction false} LookupAfterRemove<F>(rows: seq<Row<F>>, id: string, other: string)
    ensures Lookup(Remove(rows, id), other) == if other == id then None else Lookup(rows, other)
  {
    if rows != [] {
      LookupAfterRemove(rows[1..], id, other);
      assert rows == [rows[0]] + rows[1..];
      if rows[0].id != id {
        assert Remove(rows, id) == [rows[0]] + Remove(rows[1..], id);
      } else {
        assert Remove(rows, id) == Remove(rows[1..], id);
      }
    }
  }

  lemma IndexOfSameKeys<F>(rows: seq<Row<F>>, s: seq<Row<F>>, x: string)
    requires |s| == |rows|
    requires forall i :: 0 <= i < |rows| ==> s[i].id == rows[i].id
    ensures IndexOf(s, x) == IndexOf(rows, x)
  {
    var a, b := IndexOf(s, x), IndexOf(rows, x);
    if a >= 0 && b >= 0 {
      assert !(a < b) && !(b < a);
    }
  }

  /** After an update the key finds the rewritten row, and every other key finds the row it found before. */
  lemma LookupAfterOverwrite<F>(rows: seq<Row<F>>, id: string, fields: F, now: int, other: string)
    ensures Lookup(Overwrite(rows, id, fields, now), other) ==
      if other != id then Lookup(rows, other)
      else match Lookup(rows, id)
        case None => None
        case Some(r) => Some(r.(fields := fields, updatedAt := now))
  {
    var s := Overwrite(rows, id, fields, now);
    IndexOfSameKeys(rows, s, other);
  }

  /** After an insert with a fresh key that key finds the new row, and every other key finds the row it found before. */
  lemma LookupAfterAppend<F>(rows: seq<Row<F>>, row: Row<F>, other: string)
    requires Lookup(rows, row.id).None?
    ensures Lookup(rows + [row], other) == if other == row.id then Some(row) else Lookup(rows, other)
  {
    var s := rows + [row];
    var a, b := IndexOf(s, other), IndexOf(rows, other);
    if b >= 0 {
      assert s[b] == rows[b];
      assert !(a < b) && !(b < a);
    } else if other == row.id {
      assert s[|rows|].id == other;
    } else {
      assert s[|rows|].id != other;
    }
  }

  // ---------------------------------------------------------------------
  // The table invariant under the three mutations

  lemma AppendWellFormed<F>(rows: seq<Row<F>>, row: Row<F>)
    requires WellFormed(rows)
    requires Lookup(rows, row.id).None?
    requires row.createdAt <= row.updatedAt
    ensures WellFormed(rows + [row])
  {
  }

  lemma OverwriteWellFormed<F>(rows: seq<Row<F>>, id: string, fields: F, now: int)
    requires WellFormed(rows)
    requires forall i :: 0 <= i < |rows| ==> rows[i].updatedAt <= now
    ensures WellFormed(Overwrite(rows, id, fields, now))
  {
  }

  lemma RemoveWellFormed<F>(rows: seq<Row<F>>, id: string)
    requires WellFormed(rows)
    ensures WellFormed(Remove(rows, id))
  {
    SelectKeepsUniqueIds(rows, (r: Row<F>) => r.id != id);
    var s := Remove(rows, id);
    forall i | 0 <= i < |s| ensures s[i].createdAt <= s[i].updatedAt {
      assert s[i] in rows;
    }
  }
}
