/** The menu handlers (`menuHandlers.go`). A handler checks its input,
    writes images, talks to the tables through the repositories and
    invalidates the cache after a successful write. Multipart parsing,
    the float price and the JSON of `existingImages` are decoded before the
    model starts: a form that does not parse is None, a price that does not
    parse is None, and a price that does is already truncated to `int`. */
module MenuHandlers {
  import opened Basics
  import opened Http
  import opened ServerState
  import opened Tables
  import Numbers
  import Translit
  import Uploads
  import ImageReconcile
  import MenuRepository
  import CategoryRepository

  datatype MenuForm = MenuForm(
    title: string,
    price: Option<int>,
    calories: string,
    description: string,
    category: string,
    files: seq<Uploads.Upload>,
    existingImages: ImageReconcile.ExistingImages)

  /** What a request meets besides its input: which of its statements reach
      the database, the clock, the UUID generator and the column binding of
      the insert. */
  datatype Env = Env(
    db: nat -> bool,
    now: int,
    uuid: nat -> string,
    bind: MenuRepository.Content -> Option<MenuRepository.Content>)

  /** `strconv.Atoi(caloriesStr)`, 0 when it fails. */
  function Calories(text: string): (c: int)
    ensures Numbers.Atoi(text).Some? ==> c == Numbers.Atoi(text).value
    ensures Numbers.Atoi(text).None? ==> c == 0
  {
    match Numbers.Atoi(text)
    case Some(n) => n
    case None => 0
  }

  /** The row content the handlers build from a form. */
  function FormContent(f: MenuForm, images: seq<string>): (c: MenuRepository.Content)
    requires f.price.Some?
    ensures c.category == Translit.Transliterate(f.category) && c.imageURLs == images
    ensures c.calories == Calories(f.calories) && c.price == f.price.value
  {
    MenuRepository.Content(f.title, f.price.value, images, Calories(f.calories), f.description, Translit.Transliterate(f.category))
  }

  /** The keys a successful write removes. */
  function WriteKeys(idStr: string): set<string> {
    {MenuKey, CategoriesKey, MenuItemKeyPrefix + idStr}
  }

  /** `GetMenuItemByID` failures as the handlers report them. */
  function LookupError<T>(e: DbError, failed: string): Response<T> {
    if e == NotFound then Error(StatusNotFound, "Menu item not found")
    else Error(StatusInternalServerError, failed)
  }

  /** `CreateMenuItemHandler` */
  function CreateMenuItemHandler(s: State, form: Option<MenuForm>, env: Env): (r: Reply<MenuRepository.MenuItem>)
    requires ServerState.Valid(s)
    ensures ServerState.Valid(r.state)
    ensures r.response.status in {StatusCreated, StatusBadRequest, StatusInternalServerError}
    ensures form.None? ==> r == Reply(Error(StatusBadRequest, "Failed to parse multipart form"), s)
    ensures r.response.status == StatusBadRequest ==>
      r.state == s.(disk := r.state.disk)
    ensures form.Some? && Uploads.SaveUploadedFiles(form.value.files, env.uuid, s.disk).result.Err? ==>
      r == Reply(Error(StatusBadRequest, "Failed to save images: "
                       + Uploads.SaveErrorText(Uploads.SaveUploadedFiles(form.value.files, env.uuid, s.disk).result.error)),
                 s.(disk := Uploads.SaveUploadedFiles(form.value.files, env.uuid, s.disk).disk))
    ensures (form.Some? && Uploads.SaveUploadedFiles(form.value.files, env.uuid, s.disk).result.Ok?
             && form.value.price.None?) ==>
      r == Reply(Error(StatusBadRequest, "Invalid price"), s.(disk := Uploads.SaveUploadedFiles(form.value.files, env.uuid, s.disk).disk))
    ensures (form.Some? && Uploads.SaveUploadedFiles(form.value.files, env.uuid, s.disk).result.Ok?
             && form.value.price.Some? && form.value.category == "") ==>
      r.response == Error(StatusBadRequest, "Category is required")
    ensures r.response.status == StatusCreated <==>
      && form.Some? && form.value.price.Some? && form.value.category != ""
      && Uploads.SaveUploadedFiles(form.value.files, env.uuid, s.disk).result.Ok?
      && CategoryRepository.CreateMenuCategory(s.categories, form.value.category, Translit.Transliterate(form.value.category),
                                               env.now, env.db(0)).result.Ok?
      && env.db(1) && env.db(2)
      && env.bind(FormContent(form.value, Uploads.SaveUploadedFiles(form.value.files, env.uuid, s.disk).result.value)).Some?
    ensures r.response.status == StatusCreated ==>
      && r.response.body.Payload?
      && var item := r.response.body.value;
         && item.id !in s.menu.rows
         && r.state.menu.rows.Keys == s.menu.rows.Keys + {item.id} && r.state.menu.rows[item.id] == item
         && item.content == env.bind(FormContent(form.value, Uploads.SaveUploadedFiles(form.value.files, env.uuid, s.disk).result.value)).value
         && item.createdAt == item.updatedAt == env.now + MenuRepository.MoscowShift
         && CategoryRepository.FindNameRu(r.state.categories.rows, form.value.category).Some?
         && MenuKey !in r.state.cache && CategoriesKey !in r.state.cache
  {
    match form
    case None => Reply(Error(StatusBadRequest, "Failed to parse multipart form"), s)
    case Some(f) =>
      var saved := Uploads.SaveUploadedFiles(f.files, env.uuid, s.disk);
      var s1 := s.(disk := saved.disk);
      match saved.result
      case Err(e) => Reply(Error(StatusBadRequest, "Failed to save images: " + Uploads.SaveErrorText(e)), s1)
      case Ok(paths) =>
        if f.price.None? then Reply(Error(StatusBadRequest, "Invalid price"), s1)
        else if f.category == "" then Reply(Error(StatusBadRequest, "Category is required"), s1)
        else StoreMenuItem(s1, f, paths, env)
  }

  /** The database part of `CreateMenuItemHandler`, once the form is valid:
      create-or-get the category, insert the row, read it back. */
  function StoreMenuItem(s: State, f: MenuForm, images: seq<string>, env: Env): (r: Reply<MenuRepository.MenuItem>)
    requires ServerState.Valid(s) && f.price.Some? && f.category != ""
    ensures ServerState.Valid(r.state)
    ensures r.response.status in {StatusCreated, StatusInternalServerError}
    ensures r.state.disk == s.disk
    ensures r.response.status != StatusCreated ==> r.state.cache == s.cache
    ensures r.response.status == StatusCreated <==>
      && CategoryRepository.CreateMenuCategory(s.categories, f.category, Translit.Transliterate(f.category), env.now, env.db(0)).result.Ok?
      && env.db(1) && env.db(2) && env.bind(FormContent(f, images)).Some?
    ensures r.response.status == StatusCreated ==>
      && r.response.body.Payload?
      && var item := r.response.body.value;
         && item.id !in s.menu.rows
         && r.state.menu.rows.Keys == s.menu.rows.Keys + {item.id} && r.state.menu.rows[item.id] == item
         && env.bind(FormContent(f, images)).Some? && item.content == env.bind(FormContent(f, images)).value
         && item.createdAt == item.updatedAt == env.now + MenuRepository.MoscowShift
         && CategoryRepository.FindNameRu(r.state.categories.rows, f.category).Some?
         && MenuKey !in r.state.cache && CategoriesKey !in r.state.cache
  {
    var cat := CategoryRepository.CreateMenuCategory(s.categories, f.category, Translit.Transliterate(f.category), env.now, env.db(0));
    var s1 := s.(categories := cat.table);
    if cat.result.Err? then Reply(Error(StatusInternalServerError, "Failed to create category"), s1)
    else
      CategoryExists(s.categories, f.category, Translit.Transliterate(f.category), env.now, env.db(0));
      var created := MenuRepository.CreateMenuItem(s1.menu, FormContent(f, images), env.now, env.bind, env.db(1));
      var s2 := s1.(menu := created.table);
      match created.result
      case Err(_) => Reply(Error(StatusInternalServerError, "Failed to create menu item"), s2)
      case Ok(id) =>
        match MenuRepository.GetMenuItemByID(s2.menu, id, env.db(2))
        case Err(_) => Reply(Error(StatusInternalServerError, "Failed to fetch created menu item"), s2)
        case Ok(item) =>
          Reply(Response(StatusCreated, Payload(item)), s2.(cache := Invalidate(s2.cache, {MenuKey, CategoriesKey})))
  }

  /** After a successful create-or-get the Russian name is in the table. */
  lemma CategoryExists(t: CategoryRepository.CategoryTable, nameRu: string, nameEn: string, now: int, up: bool)
    requires CategoryRepository.WellFormed(t)
    requires CategoryRepository.CreateMenuCategory(t, nameRu, nameEn, now, up).result.Ok?
    ensures CategoryRepository.FindNameRu(CategoryRepository.CreateMenuCategory(t, nameRu, nameEn, now, up).table.rows, nameRu).Some?
  {
    var r := CategoryRepository.CreateMenuCategory(t, nameRu, nameEn, now, up);
    if CategoryRepository.FindNameRu(t.rows, nameRu).None? {
      assert r.table.rows[|t.rows|].nameRu == nameRu;
    }
  }

  /** `GetMenuHandler`: cache-aside on "menu". A hit answers from the cache
      whatever the database would say; a miss reads every row and caches
      the list. */
  method GetMenuHandler(s: State, db: nat -> bool) returns (r: Reply<seq<MenuRepository.MenuItem>>)
    requires ServerState.Valid(s)
    ensures ServerState.Valid(r.state)
    ensures MenuKey in s.cache ==> r == Reply(Response(StatusOK, Payload(s.cache[MenuKey].items)), s)
    ensures MenuKey !in s.cache && !db(0) ==> r == Reply(Error(StatusInternalServerError, "Failed to fetch menu"), s)
    ensures MenuKey !in s.cache && db(0) ==>
      && r.response.status == StatusOK && r.response.body.Payload?
      && r.state == s.(cache := s.cache[MenuKey := MenuEntry(r.response.body.value)])
      && (forall k :: k in s.menu.rows ==> s.menu.rows[k] in r.response.body.value)
      && (forall i :: 0 <= i < |r.response.body.value| ==> r.response.body.value[i] in s.menu.rows.Values)
  {
    if MenuKey in s.cache {
      return Reply(Response(StatusOK, Payload(s.cache[MenuKey].items)), s);
    }
    var menu := MenuRepository.GetMenu(s.menu, db(0));
    if menu.Err? {
      return Reply(Error(StatusInternalServerError, "Failed to fetch menu"), s);
    }
    forall i | 0 <= i < |menu.value| ensures menu.value[i] in s.menu.rows.Values {
      assert s.menu.rows[menu.value[i].id] == menu.value[i];
    }
    r := Reply(Response(StatusOK, Payload(menu.value)), s.(cache := s.cache[MenuKey := MenuEntry(menu.value)]));
  }

  /** `GetMenuItemHandler`: no cache, no writes. */
  function GetMenuItemHandler(s: State, idStr: string, db: nat -> bool): (r: Response<MenuRepository.MenuItem>)
    requires ServerState.Valid(s)
    ensures Numbers.Atoi(idStr).None? ==> r == Error(StatusBadRequest, "Invalid ID")
    ensures r.status == StatusOK <==> Numbers.Atoi(idStr).Some? && db(0) && Numbers.Atoi(idStr).value in s.menu.rows
    ensures r.status == StatusOK ==> r.body == Payload(s.menu.rows[Numbers.Atoi(idStr).value])
    ensures Numbers.Atoi(idStr).Some? && db(0) && Numbers.Atoi(idStr).value !in s.menu.rows ==>
      r == Error(StatusNotFound, "Menu item not found")
  {
    match Numbers.Atoi(idStr)
    case None => Error(StatusBadRequest, "Invalid ID")
    case Some(id) =>
      match MenuRepository.GetMenuItemByID(s.menu, id, db(0))
      case Err(e) => LookupError(e, "Failed to fetch menu item")
      case Ok(item) => Response(StatusOK, Payload(item))
  }

  /** `DelMenuItemHandler`: look the item up, delete its uploaded images,
      delete the row, then drop its category if no row uses it any more —
      a failure of that last step is ignored. */
  function DelMenuItemHandler(s: State, idStr: string, db: nat -> bool): (r: Reply<()>)
    requires ServerState.Valid(s)
    ensures ServerState.Valid(r.state)
    ensures Numbers.Atoi(idStr).None? ==> r == Reply(Error(StatusBadRequest, "Invalid ID"), s)
    ensures r.response.status == StatusNoContent <==>
      && Numbers.Atoi(idStr).Some? && Numbers.Atoi(idStr).value in s.menu.rows
      && db(0) && db(1)
      && Uploads.DeleteUploadedFiles(s.menu.rows[Numbers.Atoi(idStr).value].content.imageURLs, s.disk).ok
    ensures Numbers.Atoi(idStr).Some? && db(0) && Numbers.Atoi(idStr).value !in s.menu.rows ==>
      r == Reply(Error(StatusNotFound, "Menu item not found"), s)
    ensures r.response.status == StatusNoContent ==>
      && r.state.menu.rows == s.menu.rows - {Numbers.Atoi(idStr).value}
      && (forall k :: k in WriteKeys(idStr) ==> k !in r.state.cache)
    ensures r.response.status != StatusNoContent ==> r.state.menu == s.menu && r.state.cache == s.cache && r.state.categories == s.categories
  {
    match Numbers.Atoi(idStr)
    case None => Reply(Error(StatusBadRequest, "Invalid ID"), s)
    case Some(id) =>
      match MenuRepository.GetMenuItemByID(s.menu, id, db(0))
      case Err(e) => Reply(LookupError(e, "Failed to fetch menu item"), s)
      case Ok(item) =>
        var removed := Uploads.DeleteUploadedFiles(item.content.imageURLs, s.disk);
        var s1 := s.(disk := removed.disk);
        if !removed.ok then Reply(Error(StatusInternalServerError, "Failed to delete images"), s1)
        else
          var deleted := MenuRepository.DelMenuItem(s1.menu, id, db(1));
          if deleted.result.Err? then Reply(LookupError(deleted.result.error, "Failed to delete menu item"), s1)
          else
            var s2 := s1.(menu := deleted.table);
            var cleanup := CategoryRepository.DeleteUnusedMenuCategory(s2.categories, item.content.category, s2.menu, db(2));
            var s3 := s2.(categories := cleanup.table);
            Reply(Response(StatusNoContent, NoBody), s3.(cache := Invalidate(s3.cache, WriteKeys(idStr))))
  }

  /** After a successful delete the item is gone: reading it back and
      deleting it again both answer 404. */
  lemma DeletedMenuItemIsGone(s: State, idStr: string, db: nat -> bool, db2: nat -> bool)
    requires ServerState.Valid(s)
    requires DelMenuItemHandler(s, idStr, db).response.status == StatusNoContent
    requires db2(0)
    ensures var s1 := DelMenuItemHandler(s, idStr, db).state;
      && GetMenuItemHandler(s1, idStr, db2) == Error(StatusNotFound, "Menu item not found")
      && DelMenuItemHandler(s1, idStr, db2) == Reply(Error(StatusNotFound, "Menu item not found"), s1)
  {
  }

  /** A created item can be read back by its id, as the body returned it. */
  lemma CreatedMenuItemIsFetchable(s: State, form: Option<MenuForm>, env: Env, idStr: string, db2: nat -> bool)
    requires ServerState.Valid(s)
    requires CreateMenuItemHandler(s, form, env).response.status == StatusCreated
    requires Numbers.Atoi(idStr) == Some(CreateMenuItemHandler(s, form, env).response.body.value.id)
    requires db2(0)
    ensures GetMenuItemHandler(CreateMenuItemHandler(s, form, env).state, idStr, db2)
      == Response(StatusOK, CreateMenuItemHandler(s, form, env).response.body)
  {
  }

  /** The outcome of the category cleanup never changes the response. */
  lemma CleanupFailureIgnored(s: State, idStr: string, db: nat -> bool)
    requires ServerState.Valid(s)
    ensures DelMenuItemHandler(s, idStr, db).response
      == DelMenuItemHandler(s, idStr, (k: nat) => if k == 2 then false else db(k)).response
  {
  }

  /** The checks of the price and the category, in the handlers' order. */
  function FormProblem(f: MenuForm): (e: Option<string>)
    ensures e.None? <==> f.price.Some? && f.category != ""
    ensures f.price.None? ==> e == Some("Invalid price")
    ensures f.price.Some? && f.category == "" ==> e == Some("Category is required")
  {
    if f.price.None? then Some("Invalid price")
    else if f.category == "" then Some("Category is required")
    else None
  }

  /** How far an update gets before it touches the stored images: either it
      has already answered, or it has found the item and knows the new image
      list. */
  datatype UpdateStart =
    | Answered(reply: Reply<()>)
    | Found(state: State, id: int, form: MenuForm, images: seq<string>, current: MenuRepository.MenuItem)

  /** The first steps of `UpdateMenuHandler`: parse the id and the form, save
      the uploads, decode `existingImages`, look the item up. */
  function StartUpdate(s: State, idStr: string, form: Option<MenuForm>, env: Env): (u: UpdateStart)
    requires ServerState.Valid(s)
    ensures u.Answered? ==>
      && ServerState.Valid(u.reply.state)
      && u.reply.response.status in {StatusBadRequest, StatusNotFound, StatusInternalServerError}
      && u.reply.state == s.(disk := u.reply.state.disk) && s.disk.files <= u.reply.state.disk.files
    ensures Numbers.Atoi(idStr).None? ==> u == Answered(Reply(Error(StatusBadRequest, "Invalid ID"), s))
    ensures Numbers.Atoi(idStr).Some? && form.None? ==> u == Answered(Reply(Error(StatusBadRequest, "Failed to parse multipart form"), s))
    ensures u.Found? <==>
      && Numbers.Atoi(idStr).Some? && form.Some?
      && Uploads.SaveUploadedFiles(form.value.files, env.uuid, s.disk).result.Ok?
      && ImageReconcile.KeptImages(form.value.existingImages).Some?
      && env.db(0) && Numbers.Atoi(idStr).value in s.menu.rows
    ensures u.Found? ==>
      && var saved := Uploads.SaveUploadedFiles(form.value.files, env.uuid, s.disk);
         && u.state == s.(disk := saved.disk) && ServerState.Valid(u.state)
         && u.id == Numbers.Atoi(idStr).value && u.form == form.value
         && u.current == s.menu.rows[u.id]
         && u.images == ImageReconcile.FinalImages(ImageReconcile.KeptImages(form.value.existingImages).value, saved.result.value)
  {
    match Numbers.Atoi(idStr)
    case None => Answered(Reply(Error(StatusBadRequest, "Invalid ID"), s))
    case Some(id) =>
      match form
      case None => Answered(Reply(Error(StatusBadRequest, "Failed to parse multipart form"), s))
      case Some(f) =>
        var saved := Uploads.SaveUploadedFiles(f.files, env.uuid, s.disk);
        var s1 := s.(disk := saved.disk);
        match saved.result
        case Err(e) => Answered(Reply(Error(StatusBadRequest, "Failed to save images: " + Uploads.SaveErrorText(e)), s1))
        case Ok(uploaded) =>
          match ImageReconcile.KeptImages(f.existingImages)
          case None => Answered(Reply(Error(StatusBadRequest, "Invalid existingImages"), s1))
          case Some(kept) =>
            match MenuRepository.GetMenuItemByID(s1.menu, id, env.db(0))
            case Err(e) => Answered(Reply(LookupError(e, "Failed to fetch menu item"), s1))
            case Ok(current) => Found(s1, id, f, ImageReconcile.FinalImages(kept, uploaded), current)
  }

  /** The last steps of an update, for a form that passed its checks:
      create-or-get the category, overwrite the row, invalidate the cache. */
  function StoreUpdate(s: State, id: int, idStr: string, f: MenuForm, images: seq<string>, env: Env): (r: Reply<()>)
    requires ServerState.Valid(s) && FormProblem(f).None?
    ensures ServerState.Valid(r.state) && r.state.disk == s.disk
    ensures r.response.status in {StatusNoContent, StatusNotFound, StatusInternalServerError}
    ensures r.response.status == StatusNoContent <==>
      && env.db(1) && env.db(2) && id in s.menu.rows
      && CategoryRepository.CreateMenuCategory(s.categories, f.category, Translit.Transliterate(f.category), env.now, true).result.Ok?
    ensures r.response.status == StatusNoContent ==>
      && r.state.menu.rows.Keys == s.menu.rows.Keys
      && r.state.menu.rows[id].content == FormContent(f, images)
      && r.state.menu.rows[id].createdAt == s.menu.rows[id].createdAt
      && (forall k :: k in s.menu.rows && k != id ==> r.state.menu.rows[k] == s.menu.rows[k])
      && CategoryRepository.FindNameRu(r.state.categories.rows, f.category).Some?
      && (forall k :: k in WriteKeys(idStr) ==> k !in r.state.cache)
    ensures r.response.status != StatusNoContent ==> r.state.menu == s.menu && r.state.cache == s.cache
  {
    var cat := CategoryRepository.CreateMenuCategory(s.categories, f.category, Translit.Transliterate(f.category), env.now, env.db(1));
    var s1 := s.(categories := cat.table);
    if cat.result.Err? then Reply(Error(StatusInternalServerError, "Failed to create category"), s1)
    else
      CategoryExists(s.categories, f.category, Translit.Transliterate(f.category), env.now, env.db(1));
      var updated := MenuRepository.UpdateMenuItem(s1.menu, id, FormContent(f, images), env.now, env.db(2));
      if updated.result.Err? then Reply(LookupError(updated.result.error, "Failed to update menu item"), s1)
      else
        var s2 := s1.(menu := updated.table);
        Reply(Response(StatusNoContent, NoBody), s2.(cache := Invalidate(s2.cache, WriteKeys(idStr))))
  }

  /** `UpdateMenuHandler`. The stored list becomes the kept images followed
      by the uploads; the images the item had but the list drops are deleted
      as soon as the item is found — before the price and the category are
      checked. */
  function UpdateMenuHandler(s: State, idStr: string, form: Option<MenuForm>, env: Env): (r: Reply<()>)
    requires ServerState.Valid(s)
    ensures ServerState.Valid(r.state)
    ensures Numbers.Atoi(idStr).None? ==> r == Reply(Error(StatusBadRequest, "Invalid ID"), s)
    ensures r.response.status == StatusNoContent ==>
      var u := StartUpdate(s, idStr, form, env);
      && u.Found? && FormProblem(u.form).None?
      && Uploads.DeleteUploadedFiles(ImageReconcile.Minus(u.current.content.imageURLs, u.images), u.state.disk).ok
      && r.state.menu.rows.Keys == s.menu.rows.Keys
      && r.state.menu.rows[u.id].content == FormContent(u.form, u.images)
      && r.state.menu.rows[u.id].createdAt == s.menu.rows[u.id].createdAt
      && (forall p :: p in Uploads.Targets(ImageReconcile.Minus(u.current.content.imageURLs, u.images)) ==> p !in r.state.disk.files)
      && (forall k :: k in WriteKeys(idStr) ==> k !in r.state.cache)
    ensures r.response.status != StatusNoContent ==> r.state.menu == s.menu && r.state.cache == s.cache
  {
    match StartUpdate(s, idStr, form, env)
    case Answered(reply) => reply
    case Found(s1, id, f, images, current) =>
      var removed := Uploads.DeleteUploadedFiles(ImageReconcile.Minus(current.content.imageURLs, images), s1.disk);
      var s2 := s1.(disk := removed.disk);
      if !removed.ok then Reply(Error(StatusInternalServerError, "Failed to delete old images"), s2)
      else
        match FormProblem(f)
        case Some(problem) => Reply(Error(StatusBadRequest, problem), s2)
        case None => StoreUpdate(s2, id, idStr, f, images, env)
  }

  /** The update answers 400 "Invalid price" after it has already deleted
      an image the request drops: the row still lists the image, the file
      is gone. */
  lemma RejectedUpdateLosesImages(s: State, idStr: string, form: MenuForm, env: Env, url: string)
    requires ServerState.Valid(s)
    requires Numbers.Atoi(idStr).Some? && Numbers.Atoi(idStr).value in s.menu.rows && env.db(0)
    requires form.files == [] && form.existingImages == ImageReconcile.NoneKept && form.price.None?
    requires url in s.menu.rows[Numbers.Atoi(idStr).value].content.imageURLs && Contains(url, Uploads.UploadMarker)
    requires Uploads.DeleteTarget(url) in s.disk.files && s.disk.stuck == {}
    ensures var r := UpdateMenuHandler(s, idStr, Some(form), env);
      && r.response == Error(StatusBadRequest, "Invalid price")
      && r.state.menu == s.menu
      && url in r.state.menu.rows[Numbers.Atoi(idStr).value].content.imageURLs
      && Uploads.DeleteTarget(url) in s.disk.files && Uploads.DeleteTarget(url) !in r.state.disk.files
  {
    var id := Numbers.Atoi(idStr).value;
    var saved := Uploads.SaveUploadedFiles([], env.uuid, s.disk);
    assert saved.result.Ok? && saved.result.value == [];
    assert saved.disk == s.disk;
    var u := StartUpdate(s, idStr, Some(form), env);
    assert u == Found(s, id, form, [], s.menu.rows[id]);
    var doomed := ImageReconcile.Minus(s.menu.rows[id].content.imageURLs, []);
    ImageReconcile.MinusProperties(s.menu.rows[id].content.imageURLs, []);
    Uploads.TargetOfOwnedUrl(doomed, url);
    var removed := Uploads.DeleteUploadedFiles(doomed, s.disk);
    assert removed.ok;
    assert FormProblem(form) == Some("Invalid price");
    assert UpdateMenuHandler(s, idStr, Some(form), env)
      == Reply(Error(StatusBadRequest, "Invalid price"), s.(disk := removed.disk));
  }

  /** The update as evidently intended: the price and the category are
      checked before any stored image is deleted. */
  function UpdateMenuHandlerChecked(s: State, idStr: string, form: Option<MenuForm>, env: Env): (r: Reply<()>)
    requires ServerState.Valid(s)
    ensures ServerState.Valid(r.state)
    ensures r.response.status == StatusBadRequest ==>
      r.state.menu == s.menu && r.state.cache == s.cache && s.disk.files <= r.state.disk.files
    ensures r.response.status != StatusNoContent ==> r.state.menu == s.menu && r.state.cache == s.cache
  {
    match StartUpdate(s, idStr, form, env)
    case Answered(reply) => reply
    case Found(s1, id, f, images, current) =>
      match FormProblem(f)
      case Some(problem) => Reply(Error(StatusBadRequest, problem), s1)
      case None =>
        var removed := Uploads.DeleteUploadedFiles(ImageReconcile.Minus(current.content.imageURLs, images), s1.disk);
        var s2 := s1.(disk := removed.disk);
        if !removed.ok then Reply(Error(StatusInternalServerError, "Failed to delete old images"), s2)
        else StoreUpdate(s2, id, idStr, f, images, env)
  }

  /** On a form whose price and category are fine the two orders agree. */
  lemma CheckedUpdateAgrees(s: State, idStr: string, form: MenuForm, env: Env)
    requires ServerState.Valid(s) && FormProblem(form).None?
    ensures UpdateMenuHandlerChecked(s, idStr, Some(form), env) == UpdateMenuHandler(s, idStr, Some(form), env)
  {
  }
}
