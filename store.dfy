/** The relational store behind the PDO connection, reduced to what the two
    classes use: one table with an auto-increment primary key. An INSERT takes
    the next key and records it as the connection's last insert id; a DELETE or
    UPDATE with `WHERE key = :key` touches the row with that key, if any (a NULL
    key matches no row); a SELECT without ORDER BY yields rows in key order. */
module Store {
  import opened Php

  /** The first key in [lo, hi), in ascending order, whose row satisfies p. */
  function FirstKeyFrom<R>(rows: map<int, R>, p: R -> bool, lo: int, hi: int): (r: Option<int>)
    decreases hi - lo
    ensures r.Some? ==> lo <= r.value < hi && r.value in rows && p(rows[r.value])
    ensures r.Some? ==> forall k :: lo <= k < r.value && k in rows ==> !p(rows[k])
    ensures r.None? ==> forall k :: lo <= k < hi && k in rows ==> !p(rows[k])
  {
    if hi <= lo then None
    else if lo in rows && p(rows[lo]) then Some(lo)
    else FirstKeyFrom(rows, p, lo + 1, hi)
  }

  class Table<R> {
    /** The rows, by primary key. */
    var rows: map<int, R>
    /** The auto-increment counter: the key the next INSERT receives. */
    var nextId: int
    /** What PDO::lastInsertId() reports. */
    var lastInsertId: int

    /** Every key was handed out by the counter, which starts at 1. */
    ghost predicate Valid()
      reads this
    {
      1 <= nextId && forall k :: k in rows ==> 1 <= k < nextId
    }

    constructor ()
      ensures Valid() && rows == map[] && nextId == 1 && lastInsertId == 0
    {
      rows, nextId, lastInsertId := map[], 1, 0;
    }

    /** INSERT: the row gets a key no present row has, which becomes the last insert id. */
    method InsertRow(row: R)
      requires Valid()
      modifies this
      ensures Valid()
      ensures old(nextId) !in old(rows) && rows == old(rows)[old(nextId) := row]
      ensures lastInsertId == old(nextId) && nextId == old(nextId) + 1
    {
      rows := rows[nextId := row];
      lastInsertId := nextId;
      nextId := nextId + 1;
    }

    /** DELETE ... WHERE key = :key. */
    method DeleteByKey(key: Option<int>)
      requires Valid()
      modifies this`rows
      ensures Valid()
      ensures rows == if key.Some? then old(rows) - {key.value} else old(rows)
    {
      if key.Some? {
        rows := rows - {key.value};
      }
    }

    /** UPDATE ... SET <every column> WHERE key = :key. */
    method UpdateByKey(key: Option<int>, row: R)
      requires Valid()
      modifies this`rows
      ensures Valid()
      ensures rows == if key.Some? && key.value in old(rows) then old(rows)[key.value := row] else old(rows)
    {
      if key.Some? && key.value in rows {
        rows := rows[key.value := row];
      }
    }

    /** The key of the first row, in key order, that satisfies p. */
    function FirstKeyWhere(p: R -> bool): (r: Option<int>)
      reads this
      requires Valid()
      ensures r.Some? ==> r.value in rows && p(rows[r.value])
      ensures r.Some? ==> forall k :: k in rows && k < r.value ==> !p(rows[k])
      ensures r.None? ==> forall k :: k in rows ==> !p(rows[k])
    {
      FirstKeyFrom(rows, p, 1, nextId)
    }

    /** The first row satisfying p is determined by the rows alone: any key
        whose row satisfies p, with no smaller such key, is the one returned. */
    lemma FirstKeyWhereIs(p: R -> bool, k: int)
      requires Valid()
      ensures (k in rows && p(rows[k]) && forall j :: j in rows && j < k ==> !p(rows[j])) ==>
        FirstKeyWhere(p) == Some(k)
    {
      if k in rows && p(rows[k]) && forall j :: j in rows && j < k ==> !p(rows[j]) {
        var r := FirstKeyWhere(p);
        assert r.Some?;
        assert !(r.value < k) && !(k < r.value);
      }
    }
  }
}
