/** The menu category handlers (`menuCategoryHandlers.go`). */
module CategoryHandlers {
  import opened Basics
  import opened Http
  import opened ServerState
  import Numbers
  import CategoryRepository

  /** `GetMenuCategoriesHandler`: cache-aside on "menu_categories". A hit
      answers from the cache whatever the table holds; a miss lists the
      table and caches the listing. */
  function GetMenuCategoriesHandler(s: State, db: nat -> bool): (r: Reply<seq<CategoryRepository.Category>>)
    requires ServerState.Valid(s)
    ensures ServerState.Valid(r.state)
    ensures CategoriesKey in s.cache ==>
      r == Reply(Response(StatusOK, Payload(s.cache[CategoriesKey].categories)), s)
    ensures CategoriesKey !in s.cache && !db(0) ==>
      r == Reply(Error(StatusInternalServerError, "Failed to fetch menu categories"), s)
    ensures CategoriesKey !in s.cache && db(0) ==>
      && r.response.status == StatusOK && r.response.body.Payload?
      && CategoryRepository.Ordered(r.response.body.value)
      && multiset(r.response.body.value) == multiset(s.categories.rows)
      && r.state == s.(cache := s.cache[CategoriesKey := CategoriesEntry(r.response.body.value)])
  {
    if CategoriesKey in s.cache then Reply(Response(StatusOK, Payload(s.cache[CategoriesKey].categories)), s)
    else
      match CategoryRepository.GetMenuCategories(s.categories, db(0))
      case Err(_) => Reply(Error(StatusInternalServerError, "Failed to fetch menu categories"), s)
      case Ok(categories) =>
        Reply(Response(StatusOK, Payload(categories)), s.(cache := s.cache[CategoriesKey := CategoriesEntry(categories)]))
  }

  /** `UpdateMenuCategorySortOrderHandler`. The body is the decoded JSON
      object: None when it does not decode, otherwise its `sort_order`
      (0 when the field is absent). An id or sort order that parses but is
      outside the `integer` column range makes the update fail: a 500 that
      keeps both cache keys. */
  function UpdateMenuCategorySortOrderHandler(s: State, idStr: string, body: Option<int>, db: nat -> bool): (r: Reply<()>)
    requires ServerState.Valid(s)
    ensures ServerState.Valid(r.state)
    ensures Numbers.Atoi(idStr).None? ==> r == Reply(Error(StatusBadRequest, "Invalid ID"), s)
    ensures Numbers.Atoi(idStr).Some? && body.None? ==> r == Reply(Error(StatusBadRequest, "Invalid request body"), s)
    ensures Numbers.Atoi(idStr).Some? && body.Some?
            && (!db(0) || !CategoryRepository.IsInt4(Numbers.Atoi(idStr).value) || !CategoryRepository.IsInt4(body.value)) ==>
      r == Reply(Error(StatusInternalServerError, "Failed to update sort order"), s)
    ensures r.response.status == StatusNoContent <==>
      && Numbers.Atoi(idStr).Some? && body.Some? && db(0)
      && CategoryRepository.IsInt4(Numbers.Atoi(idStr).value) && CategoryRepository.IsInt4(body.value)
    ensures r.response.status == StatusNoContent ==>
      && r.state == s.(categories := r.state.categories, cache := r.state.cache)
      && r.state.cache == s.cache - {CategoriesKey, MenuKey}
      && |r.state.categories.rows| == |s.categories.rows|
      && (forall i :: 0 <= i < |s.categories.rows| ==>
            r.state.categories.rows[i] ==
              if s.categories.rows[i].id == Numbers.Atoi(idStr).value
              then s.categories.rows[i].(sortOrder := body.value)
              else s.categories.rows[i])
  {
    match Numbers.Atoi(idStr)
    case None => Reply(Error(StatusBadRequest, "Invalid ID"), s)
    case Some(id) =>
      match body
      case None => Reply(Error(StatusBadRequest, "Invalid request body"), s)
      case Some(sortOrder) =>
        var updated := CategoryRepository.UpdateMenuCategorySortOrder(s.categories, id, sortOrder, db(0));
        if updated.result.Err? then Reply(Error(StatusInternalServerError, "Failed to update sort order"), s)
        else
          Reply(Response(StatusNoContent, NoBody),
                s.(categories := updated.table, cache := Invalidate(s.cache, {CategoriesKey, MenuKey})))
  }

  /** After a successful reorder the next listing is read from the table,
      not the cache, and shows the new sort order. */
  lemma {:induction false} ReorderThenList(s: State, idStr: string, sortOrder: int, db: nat -> bool, i: nat)
    requires ServerState.Valid(s) && Numbers.Atoi(idStr).Some? && db(0)
    requires i < |s.categories.rows| && s.categories.rows[i].id == Numbers.Atoi(idStr).value
    requires CategoryRepository.IsInt4(sortOrder)
    ensures var s1 := UpdateMenuCategorySortOrderHandler(s, idStr, Some(sortOrder), db).state;
      var listed := GetMenuCategoriesHandler(s1, db).response;
      && listed.status == StatusOK
      && s.categories.rows[i].(sortOrder := sortOrder) in listed.body.value
  {
    var s1 := UpdateMenuCategorySortOrderHandler(s, idStr, Some(sortOrder), db).state;
    assert CategoriesKey !in s1.cache;
    var listed := GetMenuCategoriesHandler(s1, db).response;
    assert s1.categories.rows[i] == s.categories.rows[i].(sortOrder := sortOrder);
    assert s1.categories.rows[i] in multiset(s1.categories.rows);
    assert s1.categories.rows[i] in multiset(listed.body.value);
  }
}
