/** The browser's API client (`api.ts`): which headers each call sends and
    how a response status becomes success or a thrown error. The stored
    token is `localStorage.getItem('token')`, None when absent. */
module ApiClient {
  import opened Basics
  import opened Numbers
  import Auth

  const ApiBaseUrl := "http://localhost:8080/api"

  type Headers = map<string, string>

  /** `getAuthHeaders`: an Authorization header exactly when a non-empty
      token is stored (the empty string is falsy). */
  function GetAuthHeaders(token: Option<string>): (h: Headers)
    ensures token.None? || token == Some("") ==> h == map[]
    ensures token.Some? && token.value != "" ==> h == map["Authorization" := "Bearer " + token.value]
  {
    match token
    case Some(t) => if t != "" then map["Authorization" := "Bearer " + t] else map[]
    case None => map[]
  }

  /** `r.Header.Get("Authorization")` on the server: "" when absent. */
  function AuthorizationOf(h: Headers): string {
    if "Authorization" in h then h["Authorization"] else ""
  }

  /** The middleware recovers exactly the stored token from the header the
      client builds, and a client without a token is refused as missing. */
  lemma BearerRoundTrip(token: Option<string>)
    ensures token.Some? && token.value != "" ==> Auth.ExtractToken(AuthorizationOf(GetAuthHeaders(token))) == token.value
    ensures token.None? || token == Some("") ==> AuthorizationOf(GetAuthHeaders(token)) == ""
  {
    if token.Some? && token.value != "" {
      var header := "Bearer " + token.value;
      assert header[..7] == Auth.BearerPrefix && header[7..] == token.value;
    }
  }

  datatype Entity = MenuEntity | NewsEntity

  datatype Call =
    | FetchAll(entity: Entity)
    | FetchOne(entity: Entity, id: int)
    | Create(entity: Entity)
    | Update(entity: Entity, id: int)
    | Delete(entity: Entity, id: int)

  datatype Request = Request(httpMethod: string, url: string, headers: Headers)

  function Segment(e: Entity): string {
    match e
    case MenuEntity => "menu"
    case NewsEntity => "news"
  }

  /** The request each client function sends: public reads without headers,
      writes under `/admin` with the auth headers, and a JSON content type
      on top of them for create and update. */
  function RequestFor(call: Call, token: Option<string>): (r: Request)
    ensures (call.FetchAll? || call.FetchOne?) ==> r.headers == map[] && r.httpMethod == "GET"
    ensures call.Delete? ==> r.headers == GetAuthHeaders(token) && r.httpMethod == "DELETE"
    ensures (call.Create? || call.Update?) ==>
      r.headers == GetAuthHeaders(token)["Content-Type" := "application/json"]
    ensures !(call.FetchAll? || call.FetchOne?) ==> IsPrefix(ApiBaseUrl + "/admin/", r.url)
  {
    var admin := ApiBaseUrl + "/admin/" + Segment(call.entity);
    match call
    case FetchAll(e) => Request("GET", ApiBaseUrl + "/" + Segment(e), map[])
    case FetchOne(e, id) => Request("GET", ApiBaseUrl + "/" + Segment(e) + "/" + IntToString(id), map[])
    case Create(e) =>
      assert admin == (ApiBaseUrl + "/admin/") + Segment(e);
      Request("POST", admin, GetAuthHeaders(token)["Content-Type" := "application/json"])
    case Update(e, id) =>
      assert admin + "/" + IntToString(id) == (ApiBaseUrl + "/admin/") + (Segment(e) + "/" + IntToString(id));
      Request("PUT", admin + "/" + IntToString(id), GetAuthHeaders(token)["Content-Type" := "application/json"])
    case Delete(e, id) =>
      assert admin + "/" + IntToString(id) == (ApiBaseUrl + "/admin/") + (Segment(e) + "/" + IntToString(id));
      Request("DELETE", admin + "/" + IntToString(id), GetAuthHeaders(token))
  }

  /** The message each client function throws on a failed response. */
  function FailureMessage(call: Call): string {
    match call
    case FetchAll(MenuEntity) => "Failed to fetch menu"
    case FetchAll(NewsEntity) => "Failed to fetch news"
    case FetchOne(MenuEntity, _) => "Failed to fetch menu item"
    case FetchOne(NewsEntity, _) => "Failed to fetch news item"
    case Create(MenuEntity) => "Failed to create menu item"
    case Create(NewsEntity) => "Failed to create news item"
    case Update(MenuEntity, _) => "Failed to update menu item"
    case Update(NewsEntity, _) => "Failed to update news item"
    case Delete(MenuEntity, _) => "Failed to delete menu item"
    case Delete(NewsEntity, _) => "Failed to delete news item"
  }

  /** `response.ok` */
  predicate IsOk(status: int) {
    200 <= status <= 299
  }

  /** The settled promise: Ok for a 2xx status, else the thrown Error. */
  function Settle(call: Call, status: int): (r: Result<(), string>)
    ensures r.Ok? <==> IsOk(status)
    ensures r.Err? ==> r.error == FailureMessage(call) && r.error != ""
  {
    if IsOk(status) then Ok(()) else Err(FailureMessage(call))
  }
}
