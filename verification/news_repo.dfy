/** The `news` table and its repository functions. Timestamps are
    milliseconds since the Unix epoch. */
module NewsRepository {
  import opened Basics
  import opened Tables

  /** The fields a client supplies. There is no preview column. */
  datatype NewsContent = NewsContent(
    title: string,
    description: string,
    imageURLs: seq<string>,
    postedAt: int)

  datatype News = News(id: int, content: NewsContent, createdAt: int, updatedAt: int)

  type NewsTable = Table<News>

  predicate WellFormed(t: NewsTable) {
    Valid(t) && forall k :: k in t.rows ==> t.rows[k].id == k
  }

  /** `CreateNews(item)`: `createdAt` and `updatedAt` are two separate
      readings of the clock, taken in that order. */
  function CreateNews(t: NewsTable, item: NewsContent, clock1: int, clock2: int, up: bool)
    : (r: Outcome<int, News>)
    requires WellFormed(t)
    ensures WellFormed(r.table)
    ensures r.result.Ok? <==> up
    ensures r.result.Err? ==> r.table == t
    ensures r.result.Ok? ==>
      var id := r.result.value;
      && id !in t.rows
      && r.table.rows.Keys == t.rows.Keys + {id}
      && r.table.rows[id] == News(id, item, clock1, clock2)
      && (forall k :: k in t.rows ==> r.table.rows[k] == t.rows[k])
  {
    if !up then Outcome(Err(QueryFailed), t)
    else
      var (id, t1) := Insert(t, k => News(k, item, clock1, clock2));
      Outcome(Ok(id), t1)
  }

  /** `GetNewsByID(id)`: `ErrNewsNotFound` when no row has that id. */
  function GetNewsByID(t: NewsTable, id: int, up: bool): (r: Result<News, DbError>)
    requires WellFormed(t)
    ensures up ==> (r == Err(NotFound) <==> id !in t.rows)
    ensures !up ==> r == Err(QueryFailed)
    ensures r.Ok? ==> r.value.id == id && r.value == t.rows[id]
  {
    Lookup(t, id, up)
  }

  /** `GetNews()`: every row exactly once, in no promised order. */
  method GetNews(t: NewsTable, up: bool) returns (r: Result<seq<News>, DbError>)
    requires WellFormed(t)
    ensures r.Ok? <==> up
    ensures r.Ok? ==> forall i :: 0 <= i < |r.value| ==> r.value[i].id in t.rows && t.rows[r.value[i].id] == r.value[i]
    ensures r.Ok? ==> forall i, j :: 0 <= i < j < |r.value| ==> r.value[i].id != r.value[j].id
    ensures r.Ok? ==> forall k :: k in t.rows ==> t.rows[k] in r.value
  {
    if !up {
      return Err(QueryFailed);
    }
    var keys, items := ListRows(t.rows, t.nextId);
    forall k | k in t.rows ensures t.rows[k] in items {
      var i :| 0 <= i < |keys| && keys[i] == k;
      assert items[i] == t.rows[k];
    }
    return Ok(items);
  }

  /** `DelNews(id)`: `ErrNewsNotFound` when no row is affected; otherwise
      only that row goes. */
  function DelNews(t: NewsTable, id: int, up: bool): (r: Outcome<(), News>)
    requires WellFormed(t)
    ensures WellFormed(r.table)
    ensures up ==> (r.result == Err(NotFound) <==> id !in t.rows)
    ensures r.result.Ok? <==> up && id in t.rows
    ensures r.result.Err? ==> r.table == t
    ensures r.result.Ok? ==> r.table.rows == t.rows - {id}
    ensures forall k :: k in r.table.rows ==> r.table.rows[k] == t.rows[k]
  {
    Delete(t, id, up)
  }

  /** `UpdateNews(id, item)`: overwrites the content, sets `createdAt` to
      the caller's value (it is not preserved) and `updatedAt` to the
      database clock `now`. */
  function UpdateNews(t: NewsTable, id: int, item: NewsContent, createdAt: int, now: int, up: bool)
    : (r: Outcome<(), News>)
    requires WellFormed(t)
    ensures WellFormed(r.table)
    ensures up ==> (r.result == Err(NotFound) <==> id !in t.rows)
    ensures r.result.Ok? <==> up && id in t.rows
    ensures r.result.Err? ==> r.table == t
    ensures r.table.rows.Keys == t.rows.Keys
    ensures r.result.Ok? ==> r.table.rows[id] == News(id, item, createdAt, now)
    ensures forall k :: k in t.rows && k != id ==> r.table.rows[k] == t.rows[k]
  {
    Replace(t, id, (n: News) => n.(content := item, createdAt := createdAt, updatedAt := now), up)
  }

  /** What a successful create stores is what a lookup of the returned id reads. */
  lemma CreateThenGet(t: NewsTable, item: NewsContent, clock1: int, clock2: int)
    requires WellFormed(t)
    ensures var r := CreateNews(t, item, clock1, clock2, true);
      GetNewsByID(r.table, r.result.value, true) == Ok(News(r.result.value, item, clock1, clock2))
  {
  }

  /** An update loses the row's creation time whenever the caller passes a different one. */
  lemma UpdateOverwritesCreatedAt(t: NewsTable, id: int, item: NewsContent, createdAt: int, now: int)
    requires WellFormed(t) && id in t.rows && createdAt != t.rows[id].createdAt
    ensures var t1 := UpdateNews(t, id, item, createdAt, now, true).table;
      GetNewsByID(t1, id, true).value.createdAt != t.rows[id].createdAt
  {
  }

  /** After a delete the id is not found, and deleting it again reports NotFound. */
  lemma DeleteThenGet(t: NewsTable, id: int)
    requires WellFormed(t) && id in t.rows
    ensures var t1 := DelNews(t, id, true).table;
      GetNewsByID(t1, id, true) == Err(NotFound)
      && DelNews(t1, id, true).result == Err(NotFound)
  {
  }
}
