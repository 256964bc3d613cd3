/** Admin authentication (`authHandler.go`): the password gate of the login
    handler, the claims of the token it issues, and the way the middleware
    finds the token in the `Authorization` header. Signing and verifying
    tokens belong to the JWT library and are parameters here. */
module Auth {
  import opened Basics
  import opened Http

  const BearerPrefix := "Bearer "
  const WeekMs := 7 * 24 * 60 * 60 * 1000
  const WeekSeconds := 7 * 24 * 60 * 60

  /** The token's claims; times in whole seconds since the epoch. */
  datatype Claims = Claims(userId: int, role: string, expiresAt: int, issuedAt: int)

  /** `generateToken`'s claims. The clock is read twice, first for the
      expiry and then for the issue time; `NewNumericDate` truncates each
      reading to whole seconds. */
  function GenerateClaims(clock1: int, clock2: int): (c: Claims)
    ensures c.userId == 1 && c.role == "admin"
    ensures clock1 == clock2 ==> c.expiresAt == c.issuedAt + WeekSeconds
    ensures clock1 <= clock2 ==> c.expiresAt <= c.issuedAt + WeekSeconds
  {
    Claims(1, "admin", (clock1 + WeekMs) / 1000, clock2 / 1000)
  }

  /** The login request body: None when it is not valid JSON. */
  type LoginBody = Option<Credentials>

  /** A JSON object without a `password` field decodes to the empty string. */
  datatype Credentials = Credentials(password: string)

  /** `LoginHandler`: 400 for a body that is not JSON, 401 for a wrong
      password, 500 when signing fails, otherwise the signed token.
      `sign` stands for `SignedString` with the server's secret. */
  function Login(body: LoginBody, adminPassword: string, clock1: int, clock2: int,
                 sign: Claims -> Option<string>): (r: Response<string>)
    ensures body.None? ==> r == Error(StatusBadRequest, "Invalid JSON")
    ensures body.Some? && body.value.password != adminPassword ==> r == Error(StatusUnauthorized, "Invalid password")
    ensures r.body.Payload? <==>
      body.Some? && body.value.password == adminPassword && sign(GenerateClaims(clock1, clock2)).Some?
    ensures r.body.Payload? ==> r.status == StatusOK && Some(r.body.value) == sign(GenerateClaims(clock1, clock2))
  {
    match body
    case None => Error(StatusBadRequest, "Invalid JSON")
    case Some(creds) =>
      if creds.password != adminPassword then Error(StatusUnauthorized, "Invalid password")
      else match sign(GenerateClaims(clock1, clock2))
        case None => Error(StatusInternalServerError, "Failed to generate token")
        case Some(token) => Response(StatusOK, Payload(token))
  }

  /** With `ADMIN_PASSWORD` unset the expected password is empty, and a body
      of `{}` passes the gate. */
  lemma UnsetPasswordAdmitsEmptyBody(clock1: int, clock2: int, sign: Claims -> Option<string>)
    requires sign(GenerateClaims(clock1, clock2)).Some?
    ensures Login(Some(Credentials("")), "", clock1, clock2, sign).status == StatusOK
  {
  }

  /** The token the middleware checks: the part after "Bearer " when the
      header is longer than that prefix and starts with it, else the whole
      header. */
  function ExtractToken(header: string): (token: string)
    ensures |token| <= |header|
    ensures token == header || (BearerPrefix + token == header && |token| > 0)
  {
    if |header| > 7 && header[..7] == BearerPrefix then header[7..] else header
  }

  /** A bare "Bearer " is not stripped: it is taken as the token itself. */
  lemma BarePrefixIsTheToken()
    ensures ExtractToken(BearerPrefix) == BearerPrefix
  {
  }

  /** Why a request was refused. */
  datatype Refusal = MissingToken | InvalidToken

  function RefusalResponse(r: Refusal): Response<()> {
    match r
    case MissingToken => Error(StatusUnauthorized, "Missing token")
    case InvalidToken => Error(StatusUnauthorized, "Invalid token")
  }

  /** `JWTMiddleware`: the claims of a token that verifies, for the wrapped
      handler; `verify` stands for `ParseWithClaims` with the secret. */
  function Middleware(header: string, verify: string -> Option<Claims>): (r: Result<Claims, Refusal>)
    ensures header == "" <==> r == Err(MissingToken)
    ensures header != "" ==> (r.Ok? <==> verify(ExtractToken(header)).Some?)
    ensures r.Ok? ==> Some(r.value) == verify(ExtractToken(header))
  {
    if header == "" then Err(MissingToken)
    else match verify(ExtractToken(header))
      case None => Err(InvalidToken)
      case Some(claims) => Ok(claims)
  }
}
