/** The news handlers (`newsHandlers.go`). Nothing here touches the cache.
    The `postedAt` field is RFC 3339 text that the handler parses with Go's
    `time.Parse`; an instant is kept as milliseconds since the Unix epoch. */
module NewsHandlers {
  import opened Basics
  import opened Http
  import opened ServerState
  import opened Tables
  import Numbers
  import Rfc3339
  import Uploads
  import ImageReconcile
  import NewsRepository

  /** The form of a create or an update. The preview is read from the form
      but never stored: the model has no column for it. */
  datatype NewsForm = NewsForm(
    title: string,
    preview: string,
    description: string,
    postedAt: string,
    files: seq<Uploads.Upload>,
    existingImages: ImageReconcile.ExistingImages)

  /** What a request meets besides its input: which statements reach the
      database, the two clock readings the insert takes, the database clock
      of an update, and the UUID generator. */
  datatype Env = Env(db: nat -> bool, clock1: int, clock2: int, now: int, uuid: nat -> string)

  /** Go's zero `time.Time`, 0001-01-01T00:00:00Z. */
  const ZeroTimeMs := -62135596800000

  lemma ZeroTimeIsYearOne()
    ensures Rfc3339.DaysFromCivil(1, 1, 1) * 86400000 == ZeroTimeMs
  {
  }

  function FormContent(f: NewsForm, images: seq<string>, postedAt: int): (c: NewsRepository.NewsContent)
    ensures c.imageURLs == images && c.postedAt == postedAt
    ensures c.title == f.title && c.description == f.description
  {
    NewsRepository.NewsContent(f.title, f.description, images, postedAt)
  }

  /** `CreateNewsHandler`: save the uploads, parse `postedAt`, insert, read back. */
  function CreateNewsHandler(s: State, form: Option<NewsForm>, env: Env): (r: Reply<NewsRepository.News>)
    requires ServerState.Valid(s)
    ensures ServerState.Valid(r.state)
    ensures r.state.cache == s.cache && r.state.menu == s.menu && r.state.categories == s.categories
    ensures form.None? ==> r == Reply(Error(StatusBadRequest, "Failed to parse multipart form"), s)
    ensures r.response.status in {StatusCreated, StatusBadRequest, StatusInternalServerError}
    ensures r.response.status == StatusBadRequest ==> r.state == s.(disk := r.state.disk)
    ensures (form.Some? && Uploads.SaveUploadedFiles(form.value.files, env.uuid, s.disk).result.Ok?
             && Rfc3339.ParseMillis(form.value.postedAt).None?) ==>
      r.response == Error(StatusBadRequest, "Invalid postedAt format")
    ensures r.response.status == StatusCreated <==>
      && form.Some? && Uploads.SaveUploadedFiles(form.value.files, env.uuid, s.disk).result.Ok?
      && Rfc3339.ParseMillis(form.value.postedAt).Some? && env.db(0) && env.db(1)
    ensures r.response.status == StatusCreated ==>
      && r.response.body.Payload?
      && var n := r.response.body.value;
         && n.id !in s.news.rows && r.state.news.rows.Keys == s.news.rows.Keys + {n.id}
         && r.state.news.rows[n.id] == n
         && n.content == FormContent(form.value, Uploads.SaveUploadedFiles(form.value.files, env.uuid, s.disk).result.value,
                                     Rfc3339.ParseMillis(form.value.postedAt).value)
         && n.createdAt == env.clock1 && n.updatedAt == env.clock2
  {
    match form
    case None => Reply(Error(StatusBadRequest, "Failed to parse multipart form"), s)
    case Some(f) =>
      var saved := Uploads.SaveUploadedFiles(f.files, env.uuid, s.disk);
      var s1 := s.(disk := saved.disk);
      match saved.result
      case Err(e) => Reply(Error(StatusBadRequest, "Failed to save images: " + Uploads.SaveErrorText(e)), s1)
      case Ok(paths) =>
        match Rfc3339.ParseMillis(f.postedAt)
        case None => Reply(Error(StatusBadRequest, "Invalid postedAt format"), s1)
        case Some(postedAt) => StoreNews(s1, FormContent(f, paths, postedAt), env)
  }

  /** The database part of `CreateNewsHandler`: insert, then read back. */
  function StoreNews(s: State, item: NewsRepository.NewsContent, env: Env): (r: Reply<NewsRepository.News>)
    requires ServerState.Valid(s)
    ensures ServerState.Valid(r.state) && r.state == s.(news := r.state.news)
    ensures r.response.status in {StatusCreated, StatusInternalServerError}
    ensures !env.db(0) ==> r == Reply(Error(StatusInternalServerError, "Failed to create News item"), s)
    ensures env.db(0) && !env.db(1) ==>
      && r.response == Error(StatusInternalServerError, "Failed to fetch created News item")
      && |r.state.news.rows.Keys| == |s.news.rows.Keys| + 1
    ensures r.response.status == StatusCreated <==> env.db(0) && env.db(1)
    ensures r.response.status == StatusCreated ==>
      && r.response.body.Payload?
      && var n := r.response.body.value;
         && n.id !in s.news.rows && r.state.news.rows.Keys == s.news.rows.Keys + {n.id}
         && r.state.news.rows[n.id] == n
         && n == NewsRepository.News(n.id, item, env.clock1, env.clock2)
  {
    var created := NewsRepository.CreateNews(s.news, item, env.clock1, env.clock2, env.db(0));
    var s1 := s.(news := created.table);
    match created.result
    case Err(_) => Reply(Error(StatusInternalServerError, "Failed to create News item"), s1)
    case Ok(id) =>
      match NewsRepository.GetNewsByID(s1.news, id, env.db(1))
      case Err(_) => Reply(Error(StatusInternalServerError, "Failed to fetch created News item"), s1)
      case Ok(n) => Reply(Response(StatusCreated, Payload(n)), s1)
  }

  /** `GetNewsHandler`: every row, in no promised order. */
  method GetNewsHandler(s: State, db: nat -> bool) returns (r: Response<seq<NewsRepository.News>>)
    requires ServerState.Valid(s)
    ensures !db(0) ==> r == Error(StatusInternalServerError, "Failed to fetch news")
    ensures db(0) ==>
      && r.status == StatusOK && r.body.Payload?
      && (forall k :: k in s.news.rows ==> s.news.rows[k] in r.body.value)
      && (forall i :: 0 <= i < |r.body.value| ==> r.body.value[i] in s.news.rows.Values)
      && (forall i, j :: 0 <= i < j < |r.body.value| ==> r.body.value[i].id != r.body.value[j].id)
  {
    var news := NewsRepository.GetNews(s.news, db(0));
    if news.Err? {
      return Error(StatusInternalServerError, "Failed to fetch news");
    }
    forall i | 0 <= i < |news.value| ensures news.value[i] in s.news.rows.Values {
      assert s.news.rows[news.value[i].id] == news.value[i];
    }
    return Response(StatusOK, Payload(news.value));
  }

  /** A failed lookup as the handlers report it; `notFound` differs between them. */
  function LookupError<T>(e: DbError, notFound: string, failed: string): Response<T> {
    if e == NotFound then Error(StatusNotFound, notFound)
    else Error(StatusInternalServerError, failed)
  }

  /** `GetNewsByIdHandler` */
  function GetNewsByIdHandler(s: State, idStr: string, db: nat -> bool): (r: Response<NewsRepository.News>)
    requires ServerState.Valid(s)
    ensures Numbers.Atoi(idStr).None? ==> r == Error(StatusBadRequest, "Invalid ID")
    ensures r.status == StatusOK <==> Numbers.Atoi(idStr).Some? && db(0) && Numbers.Atoi(idStr).value in s.news.rows
    ensures r.status == StatusOK ==> r.body == Payload(s.news.rows[Numbers.Atoi(idStr).value])
    ensures Numbers.Atoi(idStr).Some? && db(0) && Numbers.Atoi(idStr).value !in s.news.rows ==>
      r == Error(StatusNotFound, "News item not found")
  {
    match Numbers.Atoi(idStr)
    case None => Error(StatusBadRequest, "Invalid ID")
    case Some(id) =>
      match NewsRepository.GetNewsByID(s.news, id, db(0))
      case Err(e) => LookupError(e, "News item not found", "Failed to fetch News item")
      case Ok(n) => Response(StatusOK, Payload(n))
  }

  /** `DelNewsHandler`: look the item up, delete its images, delete the row. */
  function DelNewsHandler(s: State, idStr: string, db: nat -> bool): (r: Reply<()>)
    requires ServerState.Valid(s)
    ensures ServerState.Valid(r.state)
    ensures r.state.cache == s.cache && r.state.menu == s.menu && r.state.categories == s.categories
    ensures Numbers.Atoi(idStr).None? ==> r == Reply(Error(StatusBadRequest, "Invalid ID"), s)
    ensures r.response.status == StatusNoContent <==>
      && Numbers.Atoi(idStr).Some? && Numbers.Atoi(idStr).value in s.news.rows
      && db(0) && db(1)
      && Uploads.DeleteUploadedFiles(s.news.rows[Numbers.Atoi(idStr).value].content.imageURLs, s.disk).ok
    ensures Numbers.Atoi(idStr).Some? && db(0) && Numbers.Atoi(idStr).value !in s.news.rows ==>
      r == Reply(Error(StatusNotFound, "News not found"), s)
    ensures r.response.status == StatusNoContent ==>
      && r.state.news.rows == s.news.rows - {Numbers.Atoi(idStr).value}
      && (forall p :: p in Uploads.Targets(s.news.rows[Numbers.Atoi(idStr).value].content.imageURLs) ==> p !in r.state.disk.files)
    ensures r.response.status != StatusNoContent ==> r.state.news == s.news
  {
    match Numbers.Atoi(idStr)
    case None => Reply(Error(StatusBadRequest, "Invalid ID"), s)
    case Some(id) =>
      match NewsRepository.GetNewsByID(s.news, id, db(0))
      case Err(e) => Reply(LookupError(e, "News not found", "Failed to fetch news item"), s)
      case Ok(n) =>
        var removed := Uploads.DeleteUploadedFiles(n.content.imageURLs, s.disk);
        var s1 := s.(disk := removed.disk);
        if !removed.ok then Reply(Error(StatusInternalServerError, "Failed to delete images"), s1)
        else
          var deleted := NewsRepository.DelNews(s1.news, id, db(1));
          if deleted.result.Err? then Reply(LookupError(deleted.result.error, "News not found", "Failed to delete news"), s1)
          else Reply(Response(StatusNoContent, NoBody), s1.(news := deleted.table))
  }

  /** How far an update gets before it touches the stored images. */
  datatype UpdateStart =
    | Answered(reply: Reply<()>)
    | Found(state: State, id: int, form: NewsForm, images: seq<string>, current: NewsRepository.News)

  /** The first steps of `UpdateNewsHandler`: parse the id and the form, save
      the uploads, decode `existingImages`, look the item up. */
  function StartUpdate(s: State, idStr: string, form: Option<NewsForm>, env: Env): (u: UpdateStart)
    requires ServerState.Valid(s)
    ensures u.Answered? ==>
      && ServerState.Valid(u.reply.state)
      && u.reply.response.status in {StatusBadRequest, StatusNotFound, StatusInternalServerError}
      && u.reply.state == s.(disk := u.reply.state.disk) && s.disk.files <= u.reply.state.disk.files
    ensures Numbers.Atoi(idStr).None? ==> u == Answered(Reply(Error(StatusBadRequest, "Invalid ID"), s))
    ensures Numbers.Atoi(idStr).Some? && form.None? ==> u == Answered(Reply(Error(StatusBadRequest, "Failed to parse multipart form"), s))
    ensures u.Found? <==>
      && Numbers.Atoi(idStr).Some? && form.Some?
      && Uploads.SaveUploadedFiles(form.value.files, env.uuid, s.disk).result.Ok?
      && ImageReconcile.KeptImages(form.value.existingImages).Some?
      && env.db(0) && Numbers.Atoi(idStr).value in s.news.rows
    ensures u.Found? ==>
      && var saved := Uploads.SaveUploadedFiles(form.value.files, env.uuid, s.disk);
         && u.state == s.(disk := saved.disk) && ServerState.Valid(u.state)
         && u.id == Numbers.Atoi(idStr).value && u.form == form.value
         && u.current == s.news.rows[u.id]
         && u.images == ImageReconcile.FinalImages(ImageReconcile.KeptImages(form.value.existingImages).value, saved.result.value)
  {
    match Numbers.Atoi(idStr)
    case None => Answered(Reply(Error(StatusBadRequest, "Invalid ID"), s))
    case Some(id) =>
      match form
      case None => Answered(Reply(Error(StatusBadRequest, "Failed to parse multipart form"), s))
      case Some(f) =>
        var saved := Uploads.SaveUploadedFiles(f.files, env.uuid, s.disk);
        var s1 := s.(disk := saved.disk);
        match saved.result
        case Err(e) => Answered(Reply(Error(StatusBadRequest, "Failed to save images: " + Uploads.SaveErrorText(e)), s1))
        case Ok(uploaded) =>
          match ImageReconcile.KeptImages(f.existingImages)
          case None => Answered(Reply(Error(StatusBadRequest, "Invalid existingImages"), s1))
          case Some(kept) =>
            match NewsRepository.GetNewsByID(s1.news, id, env.db(0))
            case Err(e) => Answered(Reply(LookupError(e, "News not found", "Failed to fetch news item"), s1))
            case Ok(current) => Found(s1, id, f, ImageReconcile.FinalImages(kept, uploaded), current)
  }

  /** The last step of an update: overwrite the row with the given creation time. */
  function StoreUpdate(s: State, id: int, f: NewsForm, images: seq<string>, postedAt: int, createdAt: int, env: Env): (r: Reply<()>)
    requires ServerState.Valid(s)
    ensures ServerState.Valid(r.state) && r == Reply(r.response, r.state)
    ensures r.state == s.(news := r.state.news)
    ensures r.response.status == StatusNoContent <==> env.db(1) && id in s.news.rows
    ensures r.response.status == StatusNoContent ==>
      && r.state.news.rows.Keys == s.news.rows.Keys
      && r.state.news.rows[id] == NewsRepository.News(id, FormContent(f, images, postedAt), createdAt, env.now)
    ensures r.response.status != StatusNoContent ==> r.state.news == s.news
    ensures forall k :: k in s.news.rows && k != id ==> r.state.news.rows[k] == s.news.rows[k]
  {
    var updated := NewsRepository.UpdateNews(s.news, id, FormContent(f, images, postedAt), createdAt, env.now, env.db(1));
    if updated.result.Err? then Reply(LookupError(updated.result.error, "News not found", "Failed to update news"), s)
    else Reply(Response(StatusNoContent, NoBody), s.(news := updated.table))
  }

  /** `UpdateNewsHandler`. The images the new list drops are deleted before
      `postedAt` is parsed, and the row's creation time is overwritten with
      Go's zero time, since the handler never sets it. */
  function UpdateNewsHandler(s: State, idStr: string, form: Option<NewsForm>, env: Env): (r: Reply<()>)
    requires ServerState.Valid(s)
    ensures ServerState.Valid(r.state)
    ensures r.state.cache == s.cache && r.state.menu == s.menu && r.state.categories == s.categories
    ensures Numbers.Atoi(idStr).None? ==> r == Reply(Error(StatusBadRequest, "Invalid ID"), s)
    ensures r.response.status == StatusNoContent ==>
      var u := StartUpdate(s, idStr, form, env);
      && u.Found? && Rfc3339.ParseMillis(u.form.postedAt).Some?
      && Uploads.DeleteUploadedFiles(ImageReconcile.Minus(u.current.content.imageURLs, u.images), u.state.disk).ok
      && (forall p :: p in Uploads.Targets(ImageReconcile.Minus(u.current.content.imageURLs, u.images)) ==> p !in r.state.disk.files)
      && r.state.news.rows.Keys == s.news.rows.Keys
      && r.state.news.rows[u.id].content == FormContent(u.form, u.images, Rfc3339.ParseMillis(u.form.postedAt).value)
      && r.state.news.rows[u.id].createdAt == ZeroTimeMs
      && r.state.news.rows[u.id].updatedAt == env.now
    ensures r.response.status != StatusNoContent ==> r.state.news == s.news
  {
    match StartUpdate(s, idStr, form, env)
    case Answered(reply) => reply
    case Found(s1, id, f, images, current) =>
      var removed := Uploads.DeleteUploadedFiles(ImageReconcile.Minus(current.content.imageURLs, images), s1.disk);
      var s2 := s1.(disk := removed.disk);
      if !removed.ok then Reply(Error(StatusInternalServerError, "Failed to delete old images"), s2)
      else
        match Rfc3339.ParseMillis(f.postedAt)
        case None => Reply(Error(StatusBadRequest, "Invalid postedAt format"), s2)
        case Some(postedAt) => StoreUpdate(s2, id, f, images, postedAt, ZeroTimeMs, env)
  }

  /** After a successful delete the item is gone: reading it back and
      deleting it again both answer 404. */
  lemma DeletedNewsIsGone(s: State, idStr: string, db: nat -> bool, db2: nat -> bool)
    requires ServerState.Valid(s)
    requires DelNewsHandler(s, idStr, db).response.status == StatusNoContent
    requires db2(0)
    ensures var s1 := DelNewsHandler(s, idStr, db).state;
      && GetNewsByIdHandler(s1, idStr, db2) == Error(StatusNotFound, "News item not found")
      && DelNewsHandler(s1, idStr, db2) == Reply(Error(StatusNotFound, "News not found"), s1)
  {
  }

  /** A created item can be read back by its id, as the body returned it. */
  lemma CreatedNewsIsFetchable(s: State, form: Option<NewsForm>, env: Env, idStr: string, db2: nat -> bool)
    requires ServerState.Valid(s)
    requires CreateNewsHandler(s, form, env).response.status == StatusCreated
    requires Numbers.Atoi(idStr) == Some(CreateNewsHandler(s, form, env).response.body.value.id)
    requires db2(0)
    ensures GetNewsByIdHandler(CreateNewsHandler(s, form, env).state, idStr, db2)
      == Response(StatusOK, CreateNewsHandler(s, form, env).response.body)
  {
  }

  /** A successful update of a row created at any other time loses that time. */
  lemma UpdateResetsCreatedAt(s: State, idStr: string, form: NewsForm, env: Env)
    requires ServerState.Valid(s)
    requires UpdateNewsHandler(s, idStr, Some(form), env).response.status == StatusNoContent
    ensures var id := Numbers.Atoi(idStr).value;
      id in s.news.rows
      && UpdateNewsHandler(s, idStr, Some(form), env).state.news.rows[id].createdAt == ZeroTimeMs
  {
  }

  /** The update answers 400 "Invalid postedAt format" after it has already
      deleted an image the request drops: the row still lists the image, the
      file is gone. */
  lemma RejectedUpdateLosesImages(s: State, idStr: string, form: NewsForm, env: Env, url: string)
    requires ServerState.Valid(s)
    requires Numbers.Atoi(idStr).Some? && Numbers.Atoi(idStr).value in s.news.rows && env.db(0)
    requires form.files == [] && form.existingImages == ImageReconcile.NoneKept && form.postedAt == ""
    requires url in s.news.rows[Numbers.Atoi(idStr).value].content.imageURLs && Contains(url, Uploads.UploadMarker)
    requires Uploads.DeleteTarget(url) in s.disk.files && s.disk.stuck == {}
    ensures var r := UpdateNewsHandler(s, idStr, Some(form), env);
      && r.response == Error(StatusBadRequest, "Invalid postedAt format")
      && r.state.news == s.news
      && url in r.state.news.rows[Numbers.Atoi(idStr).value].content.imageURLs
      && Uploads.DeleteTarget(url) in s.disk.files && Uploads.DeleteTarget(url) !in r.state.disk.files
  {
    var id := Numbers.Atoi(idStr).value;
    var saved := Uploads.SaveUploadedFiles([], env.uuid, s.disk);
    assert saved.result.Ok? && saved.result.value == [];
    assert saved.disk == s.disk;
    var u := StartUpdate(s, idStr, Some(form), env);
    assert u == Found(s, id, form, [], s.news.rows[id]);
    var doomed := ImageReconcile.Minus(s.news.rows[id].content.imageURLs, []);
    ImageReconcile.MinusProperties(s.news.rows[id].content.imageURLs, []);
    Uploads.TargetOfOwnedUrl(doomed, url);
    var removed := Uploads.DeleteUploadedFiles(doomed, s.disk);
    assert removed.ok;
    assert Rfc3339.ParseMillis("") == None by {
      assert Rfc3339.Parse("") == None;
    }
    assert UpdateNewsHandler(s, idStr, Some(form), env)
      == Reply(Error(StatusBadRequest, "Invalid postedAt format"), s.(disk := removed.disk));
  }

  /** The update as evidently intended: `postedAt` is parsed before any
      stored image is deleted, and the row keeps its creation time. */
  function UpdateNewsHandlerChecked(s: State, idStr: string, form: Option<NewsForm>, env: Env): (r: Reply<()>)
    requires ServerState.Valid(s)
    ensures ServerState.Valid(r.state)
    ensures r.state.cache == s.cache && r.state.menu == s.menu && r.state.categories == s.categories
    ensures r.response.status == StatusBadRequest ==> r.state.news == s.news && s.disk.files <= r.state.disk.files
    ensures r.response.status != StatusNoContent ==> r.state.news == s.news
    ensures r.response.status == StatusNoContent ==>
      && r.state.news.rows.Keys == s.news.rows.Keys && Numbers.Atoi(idStr).Some?
      && var id := Numbers.Atoi(idStr).value;
         id in s.news.rows && r.state.news.rows[id].createdAt == s.news.rows[id].createdAt
  {
    match StartUpdate(s, idStr, form, env)
    case Answered(reply) => reply
    case Found(s1, id, f, images, current) =>
      match Rfc3339.ParseMillis(f.postedAt)
      case None => Reply(Error(StatusBadRequest, "Invalid postedAt format"), s1)
      case Some(postedAt) =>
        var removed := Uploads.DeleteUploadedFiles(ImageReconcile.Minus(current.content.imageURLs, images), s1.disk);
        var s2 := s1.(disk := removed.disk);
        if !removed.ok then Reply(Error(StatusInternalServerError, "Failed to delete old images"), s2)
        else StoreUpdate(s2, id, f, images, postedAt, current.createdAt, env)
  }

  /** The creation time a store writes changes nothing but that field. */
  lemma StoreUpdateIgnoresCreatedAt(s: State, id: int, f: NewsForm, images: seq<string>, postedAt: int,
                                    createdAt1: int, createdAt2: int, env: Env)
    requires ServerState.Valid(s)
    ensures var a := StoreUpdate(s, id, f, images, postedAt, createdAt1, env);
      var b := StoreUpdate(s, id, f, images, postedAt, createdAt2, env);
      && a.response == b.response
      && a.state.disk == b.state.disk
      && a.state.news.rows.Keys == b.state.news.rows.Keys
      && (forall k :: k in a.state.news.rows ==> a.state.news.rows[k].content == b.state.news.rows[k].content)
  {
  }

  /** When `postedAt` parses, the two orders give the same response, the same
      disk and the same row contents; they differ at most in the creation
      time the row keeps. */
  lemma CheckedUpdateAgrees(s: State, idStr: string, form: NewsForm, env: Env)
    requires ServerState.Valid(s) && Rfc3339.ParseMillis(form.postedAt).Some?
    ensures var a := UpdateNewsHandler(s, idStr, Some(form), env);
      var b := UpdateNewsHandlerChecked(s, idStr, Some(form), env);
      && a.response == b.response
      && a.state.disk == b.state.disk
      && a.state.news.rows.Keys == b.state.news.rows.Keys
      && (forall k :: k in a.state.news.rows ==> a.state.news.rows[k].content == b.state.news.rows[k].content)
  {
    var u := StartUpdate(s, idStr, Some(form), env);
    if u.Found? {
      var postedAt := Rfc3339.ParseMillis(form.postedAt).value;
      var removed := Uploads.DeleteUploadedFiles(ImageReconcile.Minus(u.current.content.imageURLs, u.images), u.state.disk);
      if removed.ok {
        var s2 := u.state.(disk := removed.disk);
        var a := StoreUpdate(s2, u.id, form, u.images, postedAt, ZeroTimeMs, env);
        var b := StoreUpdate(s2, u.id, form, u.images, postedAt, u.current.createdAt, env);
        assert UpdateNewsHandler(s, idStr, Some(form), env) == a;
        assert UpdateNewsHandlerChecked(s, idStr, Some(form), env) == b;
        StoreUpdateIgnoresCreatedAt(s2, u.id, form, u.images, postedAt, ZeroTimeMs, u.current.createdAt, env);
      }
    }
  }
}
