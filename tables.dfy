/**
 * Keyed tables: the rows of a relational table as a sequence of (id, value)
 * pairs, in the table's iteration order, and lookup by primary key.
 */
module Tables {

  datatype Option<+T> = None | Some(value: T)

  /** One row of a table: its primary key and the record stored under it. */
  datatype Row<T> = Row(id: int, value: T)

  /** Primary keys are unique. */
  predicate UniqueIds<T>(table: seq<Row<T>>)
  {
    forall i, j :: 0 <= i < j < |table| ==> table[i].id != table[j].id
  }

  /** Some row of the table carries primary key `id`. */
  predicate Has<T>(table: seq<Row<T>>, id: int)
  {
    exists i :: 0 <= i < |table| && table[i].id == id
  }

  /** `objects.get(id=...)`: the record stored under `id`, or None when no row has that key. */
  function Find<T>(table: seq<Row<T>>, id: int): (r: Option<T>)
    ensures r.None? <==> !Has(table, id)
    ensures r.Some? ==> exists i :: 0 <= i < |table| && table[i].id == id && table[i].value == r.value
  {
    if |table| == 0 then None
    else if table[0].id == id then Some(table[0].value)
    else
      var r := Find(table[1..], id);
      assert forall i :: 0 <= i < |table| - 1 ==> table[1..][i] == table[i + 1];
      r
  }

  /** With unique keys, the row found is the one stored under that key. */
  lemma FindUnique<T>(table: seq<Row<T>>, i: int)
    requires UniqueIds(table) && 0 <= i < |table|
    ensures Find(table, table[i].id) == Some(table[i].value)
  {
  }

  /** The rows whose key differs from `id`, in table order (a delete by primary key). */
  function Delete<T>(table: seq<Row<T>>, id: int): (r: seq<Row<T>>)
    ensures !Has(r, id)
    ensures forall k :: 0 <= k < |r| ==> r[k] in table && r[k].id != id
    ensures forall k :: 0 <= k < |table| && table[k].id != id ==> table[k] in r
    ensures UniqueIds(table) ==> UniqueIds(r)
  {
    if |table| == 0 then []
    else
      var rest := Delete(table[1..], id);
      assert forall k :: 0 < k < |table| ==> table[k] == table[1..][k - 1];
      assert forall k :: 0 <= k < |rest| ==> rest[k] in table;
      if table[0].id == id then rest else [table[0]] + rest
  }
}
