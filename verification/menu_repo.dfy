/** The `menu` table and its repository functions. Timestamps are
    milliseconds since the Unix epoch; `now` is the clock reading of the
    call that writes the row. */
module MenuRepository {
  import opened Basics
  import opened Tables

  /** Both writers store Moscow wall-clock time as if it were UTC:
      `time.Now().UTC().Add(3 * time.Hour)` on create, and
      `NOW() + INTERVAL '3 hours'` on update. */
  const MoscowShift := 3 * 60 * 60 * 1000

  /** The six fields a client supplies. */
  datatype Content = Content(
    title: string,
    price: int,
    imageURLs: seq<string>,
    calories: int,
    description: string,
    category: string)

  datatype MenuItem = MenuItem(id: int, content: Content, createdAt: int, updatedAt: int)

  type MenuTable = Table<MenuItem>

  /** The table invariant: every row is filed under its own id. */
  predicate WellFormed(t: MenuTable) {
    Valid(t) && forall k :: k in t.rows ==> t.rows[k].id == k
  }

  /** `CreateMenuItem(item)`. The statement binds the category, calories and
      description to the columns in a different order from its column list;
      `bind` says what the database stores for those values, or `None` when
      it rejects them (which consumes no id, as the values never reach the
      insert). */
  function CreateMenuItem(t: MenuTable, item: Content, now: int, bind: Content -> Option<Content>, up: bool)
    : (r: Outcome<int, MenuItem>)
    requires WellFormed(t)
    ensures WellFormed(r.table)
    ensures r.result.Ok? <==> up && bind(item).Some?
    ensures r.result.Err? ==> r.table == t && r.result.error == QueryFailed
    ensures r.result.Ok? ==>
      var id := r.result.value;
      && id !in t.rows
      && r.table.rows.Keys == t.rows.Keys + {id}
      && r.table.rows[id].content == bind(item).value
      && r.table.rows[id].createdAt == r.table.rows[id].updatedAt == now + MoscowShift
      && (forall k :: k in t.rows ==> r.table.rows[k] == t.rows[k])
  {
    if !up || bind(item).None? then Outcome(Err(QueryFailed), t)
    else
      var c := bind(item).value;
      var (id, t1) := Insert(t, k => MenuItem(k, c, now + MoscowShift, now + MoscowShift));
      Outcome(Ok(id), t1)
  }

  /** `GetMenuItemByID(id)`: `ErrMenuItemNotFound` when no row has that id. */
  function GetMenuItemByID(t: MenuTable, id: int, up: bool): (r: Result<MenuItem, DbError>)
    requires WellFormed(t)
    ensures up ==> (r == Err(NotFound) <==> id !in t.rows)
    ensures !up ==> r == Err(QueryFailed)
    ensures r.Ok? ==> r.value.id == id && r.value == t.rows[id]
  {
    Lookup(t, id, up)
  }

  /** `GetMenu()`: every row exactly once, in no promised order. */
  method GetMenu(t: MenuTable, up: bool) returns (r: Result<seq<MenuItem>, DbError>)
    requires WellFormed(t)
    ensures r.Ok? <==> up
    ensures r.Ok? ==> forall i :: 0 <= i < |r.value| ==> r.value[i].id in t.rows && t.rows[r.value[i].id] == r.value[i]
    ensures r.Ok? ==> forall i, j :: 0 <= i < j < |r.value| ==> r.value[i].id != r.value[j].id
    ensures r.Ok? ==> forall k :: k in t.rows ==> t.rows[k] in r.value
  {
    if !up {
      return Err(QueryFailed);
    }
    var keys, items := ListRows(t.rows, t.nextId);
    forall k | k in t.rows ensures t.rows[k] in items {
      var i :| 0 <= i < |keys| && keys[i] == k;
      assert items[i] == t.rows[k];
    }
    return Ok(items);
  }

  /** `DelMenuItem(id)`: `ErrMenuItemNotFound` when no row is affected;
      otherwise only that row goes. */
  function DelMenuItem(t: MenuTable, id: int, up: bool): (r: Outcome<(), MenuItem>)
    requires WellFormed(t)
    ensures WellFormed(r.table)
    ensures up ==> (r.result == Err(NotFound) <==> id !in t.rows)
    ensures r.result.Ok? <==> up && id in t.rows
    ensures r.result.Err? ==> r.table == t
    ensures r.result.Ok? ==> r.table.rows == t.rows - {id}
    ensures forall k :: k in r.table.rows ==> r.table.rows[k] == t.rows[k]
  {
    Delete(t, id, up)
  }

  /** `UpdateMenuItem(id, item)`: overwrites the six content fields and
      `updatedAt`; the id and `createdAt` stay. */
  function UpdateMenuItem(t: MenuTable, id: int, item: Content, now: int, up: bool): (r: Outcome<(), MenuItem>)
    requires WellFormed(t)
    ensures WellFormed(r.table)
    ensures up ==> (r.result == Err(NotFound) <==> id !in t.rows)
    ensures r.result.Ok? <==> up && id in t.rows
    ensures r.result.Err? ==> r.table == t
    ensures r.table.rows.Keys == t.rows.Keys
    ensures r.result.Ok? ==>
      && r.table.rows[id].content == item
      && r.table.rows[id].createdAt == t.rows[id].createdAt
      && r.table.rows[id].updatedAt == now + MoscowShift
    ensures forall k :: k in t.rows && k != id ==> r.table.rows[k] == t.rows[k]
  {
    Replace(t, id, (m: MenuItem) => m.(content := item, updatedAt := now + MoscowShift), up)
  }

  /** `SELECT COUNT(*) FROM menu WHERE category = $1` is positive. */
  predicate UsesCategory(t: MenuTable, key: string) {
    exists k :: k in t.rows && t.rows[k].content.category == key
  }

  /** What a successful create stores is what a lookup of the returned id reads. */
  lemma CreateThenGet(t: MenuTable, item: Content, now: int, bind: Content -> Option<Content>)
    requires WellFormed(t) && bind(item).Some?
    ensures var r := CreateMenuItem(t, item, now, bind, true);
      GetMenuItemByID(r.table, r.result.value, true)
        == Ok(MenuItem(r.result.value, bind(item).value, now + MoscowShift, now + MoscowShift))
  {
  }

  /** After an update the row reads back with the new content and the old creation time. */
  lemma UpdateThenGet(t: MenuTable, id: int, item: Content, now: int)
    requires WellFormed(t) && id in t.rows
    ensures GetMenuItemByID(UpdateMenuItem(t, id, item, now, true).table, id, true)
      == Ok(MenuItem(id, item, t.rows[id].createdAt, now + MoscowShift))
  {
  }

  /** After a delete the id is not found, and deleting it again reports NotFound. */
  lemma DeleteThenGet(t: MenuTable, id: int)
    requires WellFormed(t) && id in t.rows
    ensures var t1 := DelMenuItem(t, id, true).table;
      GetMenuItemByID(t1, id, true) == Err(NotFound)
      && DelMenuItem(t1, id, true).result == Err(NotFound)
  {
  }
}
