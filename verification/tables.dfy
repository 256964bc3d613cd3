/** A table keyed by a SERIAL id: the rows by id, and the next value the
    id sequence hands out. Ids start at 1 and are never reused, even after
    a delete. Every statement either reaches the database or fails as a
    whole (`up` false: connection lost, query error), which leaves the
    table as it was. */
module Tables {
  import opened Basics

  datatype Table<R> = Table(rows: map<int, R>, nextId: int)

  /** The repository errors: the row is missing (`pgx.ErrNoRows`, or no
      row affected), or the statement failed. */
  datatype DbError = NotFound | QueryFailed

  /** The result of a statement, and the table after it. */
  datatype Outcome<T, R> = Outcome(result: Result<T, DbError>, table: Table<R>)

  /** Every id in use was handed out by the sequence before. */
  predicate IdsBelow<R>(rows: map<int, R>, nextId: int) {
    forall k :: k in rows ==> 1 <= k < nextId
  }

  predicate Valid<R>(t: Table<R>) {
    t.nextId >= 1 && IdsBelow(t.rows, t.nextId)
  }

  predicate StrictlyIncreasing(s: seq<int>) {
    forall i, j :: 0 <= i < j < |s| ==> s[i] < s[j]
  }

  /** `SELECT ... WHERE id = $1` */
  function Lookup<R>(t: Table<R>, id: int, up: bool): (r: Result<R, DbError>)
    ensures r.Ok? <==> up && id in t.rows
    ensures r.Ok? ==> r.value == t.rows[id]
    ensures r.Err? ==> (r.error == NotFound <==> up)
  {
    if !up then Err(QueryFailed)
    else if id in t.rows then Ok(t.rows[id])
    else Err(NotFound)
  }

  /** `INSERT ... RETURNING id`: the row gets the next id of the sequence. */
  function Insert<R>(t: Table<R>, row: int -> R): (r: (int, Table<R>))
    requires Valid(t)
    ensures Valid(r.1)
    ensures r.0 !in t.rows && r.0 in r.1.rows && r.1.rows[r.0] == row(r.0)
    ensures r.1.rows.Keys == t.rows.Keys + {r.0}
    ensures forall k :: k in t.rows ==> r.1.rows[k] == t.rows[k]
    ensures r.1.nextId > t.nextId
  {
    var id := t.nextId;
    (id, Table(t.rows[id := row(id)], id + 1))
  }

  /** `DELETE ... WHERE id = $1`, with "no row affected" reported as NotFound. */
  function Delete<R>(t: Table<R>, id: int, up: bool): (r: Outcome<(), R>)
    requires Valid(t)
    ensures Valid(r.table)
    ensures r.result.Ok? <==> up && id in t.rows
    ensures r.result.Err? ==> r.table == t && (r.result.error == NotFound <==> up)
    ensures r.result.Ok? ==> r.table.rows == t.rows - {id} && r.table.nextId == t.nextId
    ensures forall k :: k in r.table.rows ==> k in t.rows && r.table.rows[k] == t.rows[k]
  {
    if !up then Outcome(Err(QueryFailed), t)
    else if id !in t.rows then Outcome(Err(NotFound), t)
    else Outcome(Ok(()), Table(t.rows - {id}, t.nextId))
  }

  /** `UPDATE ... WHERE id = $1`, with "no row affected" reported as NotFound;
      `f` computes the new row from the old one. */
  function Replace<R>(t: Table<R>, id: int, f: R -> R, up: bool): (r: Outcome<(), R>)
    requires Valid(t)
    ensures Valid(r.table)
    ensures r.result.Ok? <==> up && id in t.rows
    ensures r.result.Err? ==> r.table == t && (r.result.error == NotFound <==> up)
    ensures r.table.rows.Keys == t.rows.Keys && r.table.nextId == t.nextId
    ensures r.result.Ok? ==> r.table.rows[id] == f(t.rows[id])
    ensures forall k :: k in t.rows && k != id ==> r.table.rows[k] == t.rows[k]
  {
    if !up then Outcome(Err(QueryFailed), t)
    else if id !in t.rows then Outcome(Err(NotFound), t)
    else Outcome(Ok(()), Table(t.rows[id := f(t.rows[id])], t.nextId))
  }

  /** A `SELECT ... FROM t` without ORDER BY: every row exactly once. The
      database may return them in any order; the model walks the ids the
      sequence has handed out, so rows come back by ascending id. */
  method ListRows<R>(rows: map<int, R>, nextId: int) returns (keys: seq<int>, out: seq<R>)
    requires IdsBelow(rows, nextId)
    ensures |keys| == |out|
    ensures StrictlyIncreasing(keys)
    ensures forall i :: 0 <= i < |keys| ==> keys[i] in rows && out[i] == rows[keys[i]]
    ensures forall k :: k in rows ==> k in keys
  {
    keys := [];
    out := [];
    var id := 1;
    while id < nextId
      invariant 1 <= id
      invariant |keys| == |out|
      invariant StrictlyIncreasing(keys)
      invariant forall i :: 0 <= i < |keys| ==> keys[i] in rows && keys[i] < id && out[i] == rows[keys[i]]
      invariant forall k :: k in rows && k < id ==> k in keys
    {
      if id in rows {
        keys := keys + [id];
        out := out + [rows[id]];
      }
      id := id + 1;
    }
  }

  /** An id, once deleted, is never handed out again. */
  lemma DeletedIdNotReused<R>(t: Table<R>, id: int, row: int -> R)
    requires Valid(t) && id in t.rows
    ensures Insert(Delete(t, id, true).table, row).0 != id
  {
  }
}
