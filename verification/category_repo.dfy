/** The `menu_categories` table: a SERIAL id, unique Russian and English
    names of at most 255 characters (VARCHAR(255)), an INTEGER sort order
    and a creation time. Rows are kept in insertion order; only the listing
    orders them. */
module CategoryRepository {
  import opened Basics
  import opened Tables
  import MenuRepository

  const MaxNameLength := 255

  /** The range of PostgreSQL's 4-byte `integer`, the type of both `id`
      (SERIAL) and `sort_order`. The driver refuses to encode a Go `int`
      outside it as a parameter of such a column, so the statement fails
      before it reaches the table. */
  const Int4Min := -0x8000_0000
  const Int4Max := 0x7FFF_FFFF

  predicate IsInt4(n: int) {
    Int4Min <= n <= Int4Max
  }

  datatype Category = Category(id: int, nameRu: string, nameEn: string, sortOrder: int, createdAt: int)

  datatype CategoryTable = CategoryTable(rows: seq<Category>, nextId: int)

  datatype CategoryOutcome<T> = CategoryOutcome(result: Result<T, DbError>, table: CategoryTable)

  /** Two rows that the primary key or a UNIQUE constraint forbids together. */
  predicate Clash(a: Category, b: Category) {
    a.id == b.id || a.nameRu == b.nameRu || a.nameEn == b.nameEn
  }

  predicate Fits(c: Category, nextId: int) {
    && 1 <= c.id < nextId && c.id <= Int4Max && IsInt4(c.sortOrder)
    && |c.nameRu| <= MaxNameLength && |c.nameEn| <= MaxNameLength
  }

  predicate WellFormed(t: CategoryTable) {
    && t.nextId >= 1
    && (forall i :: 0 <= i < |t.rows| ==> Fits(t.rows[i], t.nextId))
    && (forall i, j :: 0 <= i < j < |t.rows| ==> !Clash(t.rows[i], t.rows[j]))
  }

  /** The position of the row named `nameRu`, if any. */
  function FindNameRu(rows: seq<Category>, nameRu: string): (r: Option<nat>)
    ensures r.Some? ==> r.value < |rows| && rows[r.value].nameRu == nameRu
    ensures r.None? <==> forall i :: 0 <= i < |rows| ==> rows[i].nameRu != nameRu
  {
    FindFirst(rows, (c: Category) => c.nameRu == nameRu)
  }

  /** `SELECT COALESCE(MAX(sort_order), 0)`. */
  function MaxSortOrder(rows: seq<Category>): (m: int)
    ensures forall i :: 0 <= i < |rows| ==> rows[i].sortOrder <= m
    ensures |rows| == 0 ==> m == 0
    ensures |rows| > 0 ==> exists i :: 0 <= i < |rows| && rows[i].sortOrder == m
  {
    if |rows| == 0 then 0
    else if |rows| == 1 then rows[0].sortOrder
    else
      var m := MaxSortOrder(rows[1..]);
      assert rows[1..][0] == rows[1];
      if rows[0].sortOrder >= m then rows[0].sortOrder else m
  }

  /** Whether inserting `c` would break the primary key, a UNIQUE
      constraint or a column length. */
  predicate InsertRejected(rows: seq<Category>, c: Category) {
    |c.nameRu| > MaxNameLength || |c.nameEn| > MaxNameLength
    || exists i :: 0 <= i < |rows| && Clash(rows[i], c)
  }

  /** `CreateMenuCategory(nameRu, nameEn)`: create-or-get on `name_ru`. An
      existing `name_ru` returns its id and changes nothing. Otherwise the
      row is inserted with sort order one above the current maximum (1 for
      an empty table). When that sort order is past `Int4Max` the insert
      cannot be encoded, and when the id sequence is exhausted `nextval`
      fails; both leave everything as it was. An insert the constraints
      reject fails, and the id sequence has still moved on. */
  function CreateMenuCategory(t: CategoryTable, nameRu: string, nameEn: string, now: int, up: bool)
    : (r: CategoryOutcome<int>)
    requires WellFormed(t)
    ensures WellFormed(r.table)
    ensures !up ==> r == CategoryOutcome(Err(QueryFailed), t)
    ensures up && FindNameRu(t.rows, nameRu).Some? ==>
      r.table == t && r.result == Ok(t.rows[FindNameRu(t.rows, nameRu).value].id)
    ensures up && FindNameRu(t.rows, nameRu).None? && (MaxSortOrder(t.rows) == Int4Max || t.nextId > Int4Max) ==>
      r == CategoryOutcome(Err(QueryFailed), t)
    ensures up && FindNameRu(t.rows, nameRu).None? && MaxSortOrder(t.rows) < Int4Max && t.nextId <= Int4Max ==>
      && r.table.nextId == t.nextId + 1
      && (r.result.Err? <==>
            |nameRu| > MaxNameLength || |nameEn| > MaxNameLength
            || exists i :: 0 <= i < |t.rows| && t.rows[i].nameEn == nameEn)
    ensures up && r.result.Ok? && FindNameRu(t.rows, nameRu).None? ==>
      && r.result.value == t.nextId
      && |r.table.rows| == |t.rows| + 1
      && r.table.rows[..|t.rows|] == t.rows
      && r.table.rows[|t.rows|] == Category(r.result.value, nameRu, nameEn, MaxSortOrder(t.rows) + 1, now)
    ensures r.result.Err? ==> r.table.rows == t.rows
  {
    if !up then CategoryOutcome(Err(QueryFailed), t)
    else match FindNameRu(t.rows, nameRu)
      case Some(i) => CategoryOutcome(Ok(t.rows[i].id), t)
      case None =>
        var c := Category(t.nextId, nameRu, nameEn, MaxSortOrder(t.rows) + 1, now);
        if !IsInt4(c.sortOrder) || t.nextId > Int4Max then CategoryOutcome(Err(QueryFailed), t)
        else if InsertRejected(t.rows, c) then
          CategoryOutcome(Err(QueryFailed), t.(nextId := t.nextId + 1))
        else
          CategoryOutcome(Ok(c.id), CategoryTable(t.rows + [c], t.nextId + 1))
  }

  /** Calling create-or-get again with the same Russian name returns the
      same id and changes nothing, whatever English name it passes. */
  lemma CreateIsIdempotent(t: CategoryTable, nameRu: string, nameEn: string, nameEn2: string, now: int, now2: int)
    requires WellFormed(t)
    requires CreateMenuCategory(t, nameRu, nameEn, now, true).result.Ok?
    ensures var r1 := CreateMenuCategory(t, nameRu, nameEn, now, true);
      var r2 := CreateMenuCategory(r1.table, nameRu, nameEn2, now2, true);
      r2.table == r1.table && r2.result == r1.result
  {
    var r1 := CreateMenuCategory(t, nameRu, nameEn, now, true);
    if FindNameRu(t.rows, nameRu).None? {
      var last := |t.rows|;
      assert r1.table.rows[last].nameRu == nameRu;
      assert forall j :: 0 <= j < last ==> r1.table.rows[j] == t.rows[j];
    }
  }

  /** Code-point lexicographic order on strings. */
  predicate LexLe(a: string, b: string)
    decreases |a|
  {
    |a| == 0 || (|b| > 0 && (a[0] < b[0] || (a[0] == b[0] && LexLe(a[1..], b[1..]))))
  }

  lemma {:induction false} LexLeTotal(a: string, b: string)
    ensures LexLe(a, b) || LexLe(b, a)
    decreases |a|
  {
    if |a| > 0 && |b| > 0 && a[0] == b[0] {
      LexLeTotal(a[1..], b[1..]);
    }
  }

  lemma {:induction false} LexLeTrans(a: string, b: string, c: string)
    requires LexLe(a, b) && LexLe(b, c)
    ensures LexLe(a, c)
    decreases |a|
  {
    if |a| > 0 && a[0] == b[0] && b[0] == c[0] {
      LexLeTrans(a[1..], b[1..], c[1..]);
    }
  }

  lemma {:induction false} LexLeAntisymmetric(a: string, b: string)
    requires LexLe(a, b) && LexLe(b, a)
    ensures a == b
    decreases |a|
  {
    if |a| > 0 {
      LexLeAntisymmetric(a[1..], b[1..]);
      assert a == [a[0]] + a[1..] && b == [b[0]] + b[1..];
    }
  }

  /** `ORDER BY sort_order, name_ru`, with names compared by code point. */
  predicate RowLe(a: Category, b: Category) {
    a.sortOrder < b.sortOrder || (a.sortOrder == b.sortOrder && LexLe(a.nameRu, b.nameRu))
  }

  lemma RowLeTotal(a: Category, b: Category)
    ensures RowLe(a, b) || RowLe(b, a)
  {
    LexLeTotal(a.nameRu, b.nameRu);
  }

  lemma RowLeTrans(a: Category, b: Category, c: Category)
    requires RowLe(a, b) && RowLe(b, c)
    ensures RowLe(a, c)
  {
    if a.sortOrder == b.sortOrder == c.sortOrder {
      LexLeTrans(a.nameRu, b.nameRu, c.nameRu);
    }
  }

  predicate Ordered(s: seq<Category>) {
    forall i, j :: 0 <= i < j < |s| ==> RowLe(s[i], s[j])
  }

  /** `c` placed into the ordered list `s` before the first row it precedes. */
  function InsertOrdered(c: Category, s: seq<Category>): (r: seq<Category>)
    requires Ordered(s)
    ensures Ordered(r)
    ensures multiset(r) == multiset(s) + multiset{c}
    ensures |r| == |s| + 1
  {
    if |s| == 0 then [c]
    else if RowLe(c, s[0]) then
      assert forall j :: 0 <= j < |s| ==> RowLe(c, s[j]) by {
        forall j | 0 <= j < |s| ensures RowLe(c, s[j]) {
          if j > 0 {
            RowLeTrans(c, s[0], s[j]);
          }
        }
      }
      ConsOrdered(c, s);
      [c] + s
    else
      RowLeTotal(c, s[0]);
      var rest := InsertOrdered(c, s[1..]);
      assert s == [s[0]] + s[1..];
      InsertAboveHead(c, s, rest);
      ConsOrdered(s[0], rest);
      [s[0]] + rest
  }

  /** A row at or below every row of an ordered list can go in front of it. */
  lemma ConsOrdered(h: Category, s: seq<Category>)
    requires Ordered(s)
    requires forall j :: 0 <= j < |s| ==> RowLe(h, s[j])
    ensures Ordered([h] + s)
  {
    var r := [h] + s;
    forall i, j | 0 <= i < j < |r| ensures RowLe(r[i], r[j]) {
      assert r[j] == s[j - 1];
      if i > 0 {
        assert r[i] == s[i - 1];
      }
    }
  }

  /** Inserting `c` into the tail keeps every row at or above the head. */
  lemma InsertAboveHead(c: Category, s: seq<Category>, rest: seq<Category>)
    requires Ordered(s) && |s| > 0 && RowLe(s[0], c)
    requires multiset(rest) == multiset(s[1..]) + multiset{c}
    ensures forall j :: 0 <= j < |rest| ==> RowLe(s[0], rest[j])
  {
    forall j | 0 <= j < |rest| ensures RowLe(s[0], rest[j]) {
      assert rest[j] in multiset(rest);
      if rest[j] != c {
        assert rest[j] in multiset(s[1..]);
        assert rest[j] in s[1..];
        var m :| 0 <= m < |s[1..]| && s[1..][m] == rest[j];
        assert s[m + 1] == rest[j];
      }
    }
  }

  /** The rows in listing order. */
  function SortRows(s: seq<Category>): (r: seq<Category>)
    ensures Ordered(r)
    ensures multiset(r) == multiset(s)
    ensures |r| == |s|
  {
    if |s| == 0 then []
    else
      assert s == [s[0]] + s[1..];
      InsertOrdered(s[0], SortRows(s[1..]))
  }

  /** `GetMenuCategories()`: every row, ordered by sort order and then name. */
  function GetMenuCategories(t: CategoryTable, up: bool): (r: Result<seq<Category>, DbError>)
    ensures r.Ok? <==> up
    ensures r.Ok? ==> Ordered(r.value) && multiset(r.value) == multiset(t.rows)
  {
    if up then Ok(SortRows(t.rows)) else Err(QueryFailed)
  }

  /** In a well-formed table no two rows tie on (sort order, name), so the
      listing is strictly ordered: it does not depend on the storage order. */
  lemma ListingIsStrict(t: CategoryTable)
    requires WellFormed(t)
    ensures var s := SortRows(t.rows);
      forall i, j :: 0 <= i < j < |s| ==> RowLe(s[i], s[j]) && !RowLe(s[j], s[i])
  {
    var s := SortRows(t.rows);
    forall i, j | 0 <= i < j < |s| ensures !RowLe(s[j], s[i]) {
      if RowLe(s[j], s[i]) {
        LexLeAntisymmetric(s[i].nameRu, s[j].nameRu);
        NamesDistinctAfterSort(t.rows, s, i, j);
      }
    }
  }

  /** Distinct rows of a well-formed table have distinct Russian names. */
  lemma NamesDistinctAfterSort(rows: seq<Category>, s: seq<Category>, i: int, j: int)
    requires forall a, b :: 0 <= a < b < |rows| ==> !Clash(rows[a], rows[b])
    requires multiset(s) == multiset(rows) && 0 <= i < j < |s|
    ensures s[i].nameRu != s[j].nameRu
  {
    assert s[i] in multiset(rows) && s[j] in multiset(rows);
    var a :| 0 <= a < |rows| && rows[a] == s[i];
    var b :| 0 <= b < |rows| && rows[b] == s[j];
    if a == b {
      OccursTwice(s, i, j);
      RowCountedOnce(rows, a);
    }
  }

  /** A row of a table without clashes occurs in it exactly once. */
  lemma {:induction false} RowCountedOnce(rows: seq<Category>, a: int)
    requires forall x, y :: 0 <= x < y < |rows| ==> !Clash(rows[x], rows[y])
    requires 0 <= a < |rows|
    ensures multiset(rows)[rows[a]] == 1
    decreases |rows|
  {
    assert rows == [rows[0]] + rows[1..];
    if a == 0 {
      assert rows[0] !in rows[1..] by {
        forall k | 0 <= k < |rows[1..]| ensures rows[1..][k] != rows[0] {
          assert !Clash(rows[0], rows[k + 1]);
        }
      }
    } else {
      RowCountedOnce(rows[1..], a - 1);
      assert !Clash(rows[0], rows[a]);
    }
  }

  /** `GetMenuCategoryByNameRu` */
  function GetMenuCategoryByNameRu(t: CategoryTable, nameRu: string, up: bool): (r: Result<Category, DbError>)
    ensures !up ==> r == Err(QueryFailed)
    ensures up ==> (r == Err(NotFound) <==> forall i :: 0 <= i < |t.rows| ==> t.rows[i].nameRu != nameRu)
    ensures r.Ok? ==> r.value in t.rows && r.value.nameRu == nameRu
  {
    if !up then Err(QueryFailed)
    else match FindNameRu(t.rows, nameRu)
      case Some(i) => Ok(t.rows[i])
      case None => Err(NotFound)
  }

  /** `GetMenuCategoryByID`: an id outside the `integer` range is an
      encoding error, not `ErrMenuCategoryNotFound`. */
  function GetMenuCategoryByID(t: CategoryTable, id: int, up: bool): (r: Result<Category, DbError>)
    ensures !up || !IsInt4(id) ==> r == Err(QueryFailed)
    ensures up && IsInt4(id) ==> (r == Err(NotFound) <==> forall i :: 0 <= i < |t.rows| ==> t.rows[i].id != id)
    ensures r.Ok? ==> r.value in t.rows && r.value.id == id
  {
    if !up || !IsInt4(id) then Err(QueryFailed)
    else match FindFirst(t.rows, (c: Category) => c.id == id)
      case Some(i) => Ok(t.rows[i])
      case None => Err(NotFound)
  }

  /** The rows `drop` does not select, in order. */
  function Without(rows: seq<Category>, drop: Category -> bool): (r: seq<Category>)
    ensures forall x :: x in r <==> x in rows && !drop(x)
    ensures IsSubsequence(r, rows)
    ensures (forall i, j :: 0 <= i < j < |rows| ==> !Clash(rows[i], rows[j])) ==>
      forall i, j :: 0 <= i < j < |r| ==> !Clash(r[i], r[j])
  {
    if |rows| == 0 then []
    else
      var rest := Without(rows[1..], drop);
      if drop(rows[0]) then rest
      else
        KeepFirstRow(rows, rest);
        [rows[0]] + rest
  }

  /** A kept first row stays apart from the kept rows after it. */
  lemma KeepFirstRow(rows: seq<Category>, rest: seq<Category>)
    requires |rows| > 0
    requires forall x :: x in rest ==> x in rows[1..]
    requires IsSubsequence(rest, rows[1..])
    requires (forall i, j :: 0 <= i < j < |rows[1..]| ==> !Clash(rows[1..][i], rows[1..][j])) ==>
      forall i, j :: 0 <= i < j < |rest| ==> !Clash(rest[i], rest[j])
    ensures IsSubsequence([rows[0]] + rest, rows)
    ensures (forall i, j :: 0 <= i < j < |rows| ==> !Clash(rows[i], rows[j])) ==>
      forall i, j :: 0 <= i < j < |[rows[0]] + rest| ==> !Clash(([rows[0]] + rest)[i], ([rows[0]] + rest)[j])
  {
    var r := [rows[0]] + rest;
    assert r[1..] == rest;
    if forall i, j :: 0 <= i < j < |rows| ==> !Clash(rows[i], rows[j]) {
      assert forall i, j :: 0 <= i < j < |rows[1..]| ==> !Clash(rows[1..][i], rows[1..][j]) by {
        forall i, j | 0 <= i < j < |rows[1..]| ensures !Clash(rows[1..][i], rows[1..][j]) {
          assert rows[1..][i] == rows[i + 1] && rows[1..][j] == rows[j + 1];
        }
      }
      forall j | 0 <= j < |rest| ensures !Clash(rows[0], rest[j]) {
        assert rest[j] in rows[1..];
        var k :| 0 <= k < |rows[1..]| && rows[1..][k] == rest[j];
        assert rows[k + 1] == rest[j];
      }
      forall i, j | 0 <= i < j < |r| ensures !Clash(r[i], r[j]) {
        assert r[j] == rest[j - 1];
        if i > 0 {
          assert r[i] == rest[i - 1];
        }
      }
    }
  }

  lemma WithoutKeepsWellFormed(t: CategoryTable, drop: Category -> bool)
    requires WellFormed(t)
    ensures WellFormed(CategoryTable(Without(t.rows, drop), t.nextId))
  {
    var r := Without(t.rows, drop);
    forall i | 0 <= i < |r| ensures Fits(r[i], t.nextId) {
      assert r[i] in t.rows;
    }
  }

  /** `DeleteUnusedMenuCategory(nameEn)`: while a menu row still has this
      category key nothing happens; otherwise the row with that English
      name (if any) is deleted. A missing row is not an error. */
  function DeleteUnusedMenuCategory(t: CategoryTable, nameEn: string, menu: MenuRepository.MenuTable, up: bool)
    : (r: CategoryOutcome<()>)
    requires WellFormed(t)
    ensures WellFormed(r.table)
    ensures r.result.Ok? <==> up
    ensures r.result.Err? || MenuRepository.UsesCategory(menu, nameEn) ==> r.table == t
    ensures up && !MenuRepository.UsesCategory(menu, nameEn) ==>
      && r.table.nextId == t.nextId
      && (forall c :: c in r.table.rows <==> c in t.rows && c.nameEn != nameEn)
  {
    if !up then CategoryOutcome(Err(QueryFailed), t)
    else if MenuRepository.UsesCategory(menu, nameEn) then CategoryOutcome(Ok(()), t)
    else
      WithoutKeepsWellFormed(t, (c: Category) => c.nameEn == nameEn);
      CategoryOutcome(Ok(()), CategoryTable(Without(t.rows, (c: Category) => c.nameEn == nameEn), t.nextId))
  }

  /** `DeleteMenuCategoryByID(id)`: a missing id is not an error; an id
      outside the `integer` range is. */
  function DeleteMenuCategoryByID(t: CategoryTable, id: int, up: bool): (r: CategoryOutcome<()>)
    requires WellFormed(t)
    ensures WellFormed(r.table)
    ensures r.result.Ok? <==> up && IsInt4(id)
    ensures r.result.Err? ==> r.table == t
    ensures r.result.Ok? ==> r.table.nextId == t.nextId && forall c :: c in r.table.rows <==> c in t.rows && c.id != id
  {
    if !up || !IsInt4(id) then CategoryOutcome(Err(QueryFailed), t)
    else
      WithoutKeepsWellFormed(t, (c: Category) => c.id == id);
      CategoryOutcome(Ok(()), CategoryTable(Without(t.rows, (c: Category) => c.id == id), t.nextId))
  }

  /** Each row, with the sort order of the row `id` replaced. */
  function SetSortOrder(rows: seq<Category>, id: int, sortOrder: int): (r: seq<Category>)
    ensures |r| == |rows|
    ensures forall i :: 0 <= i < |rows| ==>
      r[i] == if rows[i].id == id then rows[i].(sortOrder := sortOrder) else rows[i]
  {
    seq(|rows|, i requires 0 <= i < |rows| => if rows[i].id == id then rows[i].(sortOrder := sortOrder) else rows[i])
  }

  /** `UpdateMenuCategorySortOrder(id, sortOrder)`: only that row's sort
      order changes; a missing id is a silent no-op. A sort order or an id
      outside the `integer` range fails and changes nothing. */
  function UpdateMenuCategorySortOrder(t: CategoryTable, id: int, sortOrder: int, up: bool): (r: CategoryOutcome<()>)
    requires WellFormed(t)
    ensures WellFormed(r.table)
    ensures r.result.Ok? <==> up && IsInt4(id) && IsInt4(sortOrder)
    ensures r.result.Err? ==> r.table == t
    ensures r.table.nextId == t.nextId && |r.table.rows| == |t.rows|
    ensures r.result.Ok? ==> forall i :: 0 <= i < |t.rows| ==>
      && r.table.rows[i].id == t.rows[i].id
      && r.table.rows[i].nameRu == t.rows[i].nameRu
      && r.table.rows[i].nameEn == t.rows[i].nameEn
      && r.table.rows[i].createdAt == t.rows[i].createdAt
      && r.table.rows[i].sortOrder == (if t.rows[i].id == id then sortOrder else t.rows[i].sortOrder)
  {
    if !up || !IsInt4(id) || !IsInt4(sortOrder) then CategoryOutcome(Err(QueryFailed), t)
    else CategoryOutcome(Ok(()), CategoryTable(SetSortOrder(t.rows, id, sortOrder), t.nextId))
  }

  /** Updating the sort order of an id that no row has leaves the table as
      it was; it reports success exactly when the sort order can be
      encoded. (An id the lookup reports as not found is in range.) */
  lemma UpdateMissingIdIsNoOp(t: CategoryTable, id: int, sortOrder: int)
    requires WellFormed(t)
    requires GetMenuCategoryByID(t, id, true) == Err(NotFound)
    ensures UpdateMenuCategorySortOrder(t, id, sortOrder, true).table == t
    ensures UpdateMenuCategorySortOrder(t, id, sortOrder, true).result.Ok? <==> IsInt4(sortOrder)
  {
    assert SetSortOrder(t.rows, id, sortOrder) == t.rows;
  }

  /** After a successful insert, the new name is found under the returned id. */
  lemma CreateThenLookup(t: CategoryTable, nameRu: string, nameEn: string, now: int)
    requires WellFormed(t)
    requires CreateMenuCategory(t, nameRu, nameEn, now, true).result.Ok?
    ensures var r := CreateMenuCategory(t, nameRu, nameEn, now, true);
      GetMenuCategoryByNameRu(r.table, nameRu, true).Ok?
      && GetMenuCategoryByNameRu(r.table, nameRu, true).value.id == r.result.value
  {
    var r := CreateMenuCategory(t, nameRu, nameEn, now, true);
    if FindNameRu(t.rows, nameRu).None? {
      var added := Category(t.nextId, nameRu, nameEn, MaxSortOrder(t.rows) + 1, now);
      assert r.table.rows == t.rows + [added];
      var j := FindNameRu(r.table.rows, nameRu);
      assert j.Some? by {
        assert r.table.rows[|t.rows|].nameRu == nameRu;
      }
      assert forall n :: 0 <= n < |t.rows| ==> r.table.rows[n] == t.rows[n];
    } else {
      var c := GetMenuCategoryByNameRu(r.table, nameRu, true);
      var k :| 0 <= k < |r.table.rows| && r.table.rows[k] == c.value;
      var i := FindNameRu(t.rows, nameRu).value;
      if k > i {
        assert !Clash(t.rows[i], t.rows[k]);
      }
    }
  }
}
