/** Authentication and the refresh-token lifecycle.

    JWT signing and bcrypt are foreign code, so they enter as oracle parameters:
    `encode` turns claims into a signed token, `decode` checks a token's signature
    and its `exp` claim, `hashOf` produces a salted hash and `verify` checks a
    password against one. Wall-clock time is the parameter `now`, in whole seconds. */
module Auth {
  import opened Wrappers
  import opened Models

  /** Token lifetimes, read once from the environment. */
  datatype Config = Config(accessTtlMin: int, refreshTtlDays: int)

  /** `JWT_ACCESS_MIN` defaults to 20 minutes, `JWT_REFRESH_DAYS` to 14 days. */
  const DefaultConfig: Config := Config(20, 14)

  const SecondsPerDay: int := 86400

  /** The JWT payload. Every claim is optional because `payload.get` may find nothing;
      `sub` is carried as the integer it was rendered from. */
  datatype Claims = Claims(sub: Option<int>, role: Option<string>, typ: Option<string>,
                           jti: Option<string>, iat: Option<int>, exp: Option<int>)

  /** What `jwt.decode` does with a token: returns its claims, or raises
      `ExpiredSignatureError`, or raises another `PyJWTError`. */
  datatype Decoded = Verified(claims: Claims) | Expired | Malformed

  // ---------- token claims ----------

  /** The claims of `make_access`: a short-lived, unpersisted access token. */
  function AccessClaims(cfg: Config, user: User, now: int): Claims
  {
    Claims(Some(user.id), Some(user.role), Some("access"), None, Some(now), Some(now + cfg.accessTtlMin * 60))
  }

  /** The claims of `make_refresh`, embedding the row key `jti`. */
  function RefreshClaims(cfg: Config, user: User, jti: string, now: int): Claims
  {
    Claims(Some(user.id), None, Some("refresh"), Some(jti), Some(now), Some(now + cfg.refreshTtlDays * SecondsPerDay))
  }

  // ---------- refresh-token store ----------

  /** The triple `make_refresh` returns. */
  datatype Issued = Issued(token: string, jti: string, expiresAt: int)

  /** `make_refresh`: signs a refresh token for `user` under the fresh identifier `jti`
      and inserts its row. A `jti` already in the table violates the unique constraint
      and nothing is stored (`None`). */
  function MakeRefresh(cfg: Config, encode: Claims -> string, tokens: map<string, RefreshToken>,
                       user: User, jti: string, now: int): (r: Option<(Issued, map<string, RefreshToken>)>)
    ensures r.None? <==> jti in tokens
    ensures r.Some? ==>
      var (issued, tokens') := r.value;
      && issued.jti == jti
      && issued.expiresAt == now + cfg.refreshTtlDays * SecondsPerDay
      && issued.token == encode(RefreshClaims(cfg, user, jti, now))
      && tokens'.Keys == tokens.Keys + {jti}
      && tokens'[jti] == RefreshToken(jti, user.id, false, now, issued.expiresAt)
      && (forall j :: j in tokens ==> tokens'[j] == tokens[j])
  {
    if jti in tokens then None
    else
      var expiresAt := now + cfg.refreshTtlDays * SecondsPerDay;
      var token := encode(RefreshClaims(cfg, user, jti, now));
      Some((Issued(token, jti, expiresAt), tokens[jti := NewRefreshToken(jti, user.id, now, expiresAt)]))
  }

  /** A stored row under `jti` that is neither revoked nor past its expiry at `now`. */
  predicate Live(tokens: map<string, RefreshToken>, jti: string, now: int) {
    jti in tokens && !tokens[jti].revoked && tokens[jti].expiresAt > now
  }

  /** Claims that pass the checks of `verify_refresh` after a successful decode. */
  predicate AcceptedRefresh(tokens: map<string, RefreshToken>, c: Claims, now: int) {
    && c.typ == Some("refresh")
    && c.jti.Some? && c.jti.value != ""
    && Live(tokens, c.jti.value, now)
  }

  /** `verify_refresh`: the decoded payload, or `None` when the signature or `exp` check
      fails, the type is not "refresh", the `jti` is missing or empty, or no live row
      carries it. The stored expiry decides, not only the signed claim. */
  function VerifyRefresh(decode: string -> Decoded, tokens: map<string, RefreshToken>,
                         token: string, now: int): (r: Option<Claims>)
    ensures r.Some? <==> decode(token).Verified? && AcceptedRefresh(tokens, decode(token).claims, now)
    ensures r.Some? ==> r.value == decode(token).claims
  {
    match decode(token)
    case Expired => None
    case Malformed => None
    case Verified(p) =>
      if p.typ != Some("refresh") then None
      else if p.jti.None? || p.jti.value == "" then None
      else if p.jti.value !in tokens || tokens[p.jti.value].revoked then None
      else if tokens[p.jti.value].expiresAt <= now then None
      else Some(p)
  }

  /** A Python `datetime`: an instant in whole seconds, and whether it carries a UTC offset. */
  datatype PyDateTime = PyDateTime(epoch: int, aware: bool)

  /** Python's `a <= b` on datetimes: `None` stands for the `TypeError` raised when one
      side is timezone-aware and the other is naive. */
  function PyLessEq(a: PyDateTime, b: PyDateTime): Option<bool>
  {
    if a.aware != b.aware then None else Some(a.epoch <= b.epoch)
  }

  /** Reading a `DateTime(timezone=True)` column back from SQLite: the text stored
      carries no offset, so the value comes back naive. */
  function ReadSqliteDateTime(written: PyDateTime): PyDateTime
  {
    PyDateTime(written.epoch, false)
  }

  /** What `verify_refresh` yields as written: the payload, `None`, or an exception
      that escapes `except jwt.PyJWTError`. */
  datatype VerifyOutcome = Accepted(claims: Claims) | Rejected | Raised

  /** `verify_refresh` with the row's expiry read back from SQLite (naive) and compared
      with the aware `_utcnow()`: every cookie that reaches the expiry check raises,
      so no token is ever accepted. */
  function VerifyRefreshAsWritten(decode: string -> Decoded, tokens: map<string, RefreshToken>,
                                  token: string, now: int): (r: VerifyOutcome)
    ensures !r.Accepted?
    ensures r == Raised <==>
      && decode(token).Verified?
      && decode(token).claims.typ == Some("refresh")
      && decode(token).claims.jti.Some? && decode(token).claims.jti.value != ""
      && decode(token).claims.jti.value in tokens
      && !tokens[decode(token).claims.jti.value].revoked
  {
    match decode(token)
    case Expired => Rejected
    case Malformed => Rejected
    case Verified(p) =>
      if p.typ != Some("refresh") then Rejected
      else if p.jti.None? || p.jti.value == "" then Rejected
      else if p.jti.value !in tokens || tokens[p.jti.value].revoked then Rejected
      else
        var stored := ReadSqliteDateTime(PyDateTime(tokens[p.jti.value].expiresAt, true));
        match PyLessEq(stored, PyDateTime(now, true))
        case None => Raised
        case Some(expired) => if expired then Rejected else Accepted(p)
  }

  /** The discrepancy: a cookie for a stored, unrevoked row makes the code as written
      raise (an HTTP 500 from `handle_refresh` and `handle_logout`), while the intended
      check accepts it exactly when the row's expiry lies after `now`. */
  lemma StoredExpiryComparisonRaises(decode: string -> Decoded, tokens: map<string, RefreshToken>,
                                     token: string, now: int)
    requires decode(token).Verified?
    requires decode(token).claims.typ == Some("refresh")
    requires decode(token).claims.jti.Some? && decode(token).claims.jti.value != ""
    requires decode(token).claims.jti.value in tokens && !tokens[decode(token).claims.jti.value].revoked
    ensures VerifyRefreshAsWritten(decode, tokens, token, now) == Raised
    ensures VerifyRefresh(decode, tokens, token, now).Some?
        <==> tokens[decode(token).claims.jti.value].expiresAt > now
  {
  }

  /** `revoke_refresh_by_jti`: `UPDATE ... SET revoked = true WHERE jti = :jti`. */
  function RevokeRefresh(tokens: map<string, RefreshToken>, jti: string): (r: map<string, RefreshToken>)
    ensures r.Keys == tokens.Keys
    ensures forall j :: j in tokens && j != jti ==> r[j] == tokens[j]
    ensures jti in tokens ==> r[jti].revoked && r[jti] == tokens[jti].(revoked := true)
  {
    if jti in tokens then tokens[jti := tokens[jti].(revoked := true)] else tokens
  }

  /** Once `jti` is revoked, every token carrying it is rejected, whatever its signature
      and embedded expiry say. */
  lemma RevokedTokenRejected(decode: string -> Decoded, tokens: map<string, RefreshToken>,
                             jti: string, token: string, now: int)
    requires decode(token).Verified? && decode(token).claims.jti == Some(jti)
    ensures VerifyRefresh(decode, RevokeRefresh(tokens, jti), token, now).None?
  {
  }

  /** Revoking one `jti` does not change the verdict on any token carrying another. */
  lemma RevokeLeavesOthers(decode: string -> Decoded, tokens: map<string, RefreshToken>,
                           jti: string, token: string, now: int)
    requires !(decode(token).Verified? && decode(token).claims.jti == Some(jti))
    ensures VerifyRefresh(decode, RevokeRefresh(tokens, jti), token, now)
         == VerifyRefresh(decode, tokens, token, now)
  {
  }

  /** Revoking is idempotent, and a no-op on an absent or already revoked `jti`. */
  lemma RevokeIdempotent(tokens: map<string, RefreshToken>, jti: string)
    ensures RevokeRefresh(RevokeRefresh(tokens, jti), jti) == RevokeRefresh(tokens, jti)
    ensures jti !in tokens || tokens[jti].revoked ==> RevokeRefresh(tokens, jti) == tokens
  {
  }

  /** A freshly made refresh token is accepted until its stored expiry, provided the
      signature check returns the claims it was signed with. */
  lemma MadeRefreshVerifies(cfg: Config, encode: Claims -> string, decode: string -> Decoded,
                            tokens: map<string, RefreshToken>, user: User, jti: string, now: int, later: int)
    requires jti !in tokens && jti != ""
    requires decode(encode(RefreshClaims(cfg, user, jti, now))) == Verified(RefreshClaims(cfg, user, jti, now))
    requires later < now + cfg.refreshTtlDays * SecondsPerDay
    ensures MakeRefresh(cfg, encode, tokens, user, jti, now).Some?
    ensures var (issued, tokens') := MakeRefresh(cfg, encode, tokens, user, jti, now).value;
            VerifyRefresh(decode, tokens', issued.token, later) == Some(RefreshClaims(cfg, user, jti, now))
  {
  }

  /** Inserting a row for an existing user keeps the token table well-formed. */
  lemma MakeRefreshPreservesWellFormed(cfg: Config, encode: Claims -> string, tokens: map<string, RefreshToken>,
                                       users: seq<User>, i: nat, jti: string, now: int)
    requires TokensWellFormed(tokens, users)
    requires i < |users|
    requires jti !in tokens
    ensures TokensWellFormed(MakeRefresh(cfg, encode, tokens, users[i], jti, now).value.1, users)
  {
  }

  /** Revoking keeps the token table well-formed. */
  lemma RevokePreservesWellFormed(tokens: map<string, RefreshToken>, users: seq<User>, jti: string)
    requires TokensWellFormed(tokens, users)
    ensures TokensWellFormed(RevokeRefresh(tokens, jti), users)
  {
  }

  // ---------- users ----------

  /** `query(User).filter_by(username=...).first()`: the first row in rowid order. */
  function FindByUsername(users: seq<User>, username: string): (r: Option<User>)
    ensures r.Some? <==> exists i :: 0 <= i < |users| && users[i].username == username
    ensures r.Some? ==> exists i :: 0 <= i < |users| && users[i] == r.value && r.value.username == username
                         && forall k :: 0 <= k < i ==> users[k].username != username
  {
    if |users| == 0 then None
    else if users[0].username == username then Some(users[0])
    else
      var r := FindByUsername(users[1..], username);
      assert forall i :: 1 <= i < |users| ==> users[i] == users[1..][i - 1];
      r
  }

  /** `session.get(User, id)`: the row with that primary key. */
  function FindById(users: seq<User>, id: int): (r: Option<User>)
    ensures r.Some? <==> HasUserId(users, id)
    ensures r.Some? ==> r.value.id == id && exists i :: 0 <= i < |users| && users[i] == r.value
  {
    if |users| == 0 then None
    else if users[0].id == id then Some(users[0])
    else
      var r := FindById(users[1..], id);
      assert forall i :: 1 <= i < |users| ==> users[i] == users[1..][i - 1];
      r
  }

  /** `register_user`: `false` and no change when the username is taken; otherwise one
      new active user with the next id, the hash of `password` and `role` (default
      "driver"), appended after the existing rows. */
  function RegisterUser(users: seq<User>, username: string, password: string,
                        hashOf: string -> string, role: string := DefaultRole): (r: (bool, seq<User>))
    ensures !r.0 <==> exists i :: 0 <= i < |users| && users[i].username == username
    ensures !r.0 ==> r.1 == users
    ensures r.0 ==>
      && |r.1| == |users| + 1
      && r.1[..|users|] == users
      && r.1[|users|].username == username
      && r.1[|users|].passwordHash == hashOf(password)
      && r.1[|users|].role == role
      && r.1[|users|].isActive
      && (forall i :: 0 <= i < |users| ==> users[i].id < r.1[|users|].id)
  {
    if FindByUsername(users, username).Some? then (false, users)
    else (true, users + [NewUser(NextId(users, (u: User) => u.id), username, hashOf(password), role)])
  }

  /** Registration keeps ids ascending and usernames unique. */
  lemma RegisterPreservesWellFormed(users: seq<User>, username: string, password: string,
                                    hashOf: string -> string, role: string)
    requires UsersWellFormed(users)
    ensures UsersWellFormed(RegisterUser(users, username, password, hashOf, role).1)
  {
  }

  /** Omitting the role registers a driver. */
  lemma RegisterDefaultsToDriver(users: seq<User>, username: string, password: string, hashOf: string -> string)
    requires forall i :: 0 <= i < |users| ==> users[i].username != username
    ensures RegisterUser(users, username, password, hashOf).0
    ensures RegisterUser(users, username, password, hashOf).1[|users|].role == "driver"
  {
  }

  /** `login_user`: the user with this name when the password verifies against the
      stored hash and the account is active; `None` otherwise. */
  function LoginUser(users: seq<User>, username: string, password: string,
                     verify: (string, string) -> bool): (r: Option<User>)
    ensures r.Some? ==> r.value.username == username && r.value.isActive
                        && verify(password, r.value.passwordHash)
                        && exists i :: 0 <= i < |users| && users[i] == r.value
    ensures (forall i :: 0 <= i < |users| ==> users[i].username != username) ==> r.None?
  {
    match FindByUsername(users, username)
    case None => None
    case Some(user) =>
      if !verify(password, user.passwordHash) then None
      else if !user.isActive then None
      else Some(user)
  }

  /** With unique usernames, login succeeds exactly for the row that has the name,
      a matching password and the active flag. */
  lemma LoginCharacterised(users: seq<User>, username: string, password: string,
                           verify: (string, string) -> bool, i: nat)
    requires UsernamesUnique(users)
    requires i < |users| && users[i].username == username
    ensures LoginUser(users, username, password, verify).Some?
        <==> verify(password, users[i].passwordHash) && users[i].isActive
    ensures LoginUser(users, username, password, verify).Some? ==> LoginUser(users, username, password, verify).value == users[i]
  {
  }

  /** A newly registered user can log in with the password it registered with,
      as long as the password checker accepts a password against its own hash. */
  lemma RegisterThenLogin(users: seq<User>, username: string, password: string,
                          hashOf: string -> string, verify: (string, string) -> bool, role: string)
    requires UsersWellFormed(users)
    requires forall i :: 0 <= i < |users| ==> users[i].username != username
    requires verify(password, hashOf(password))
    ensures var (ok, users') := RegisterUser(users, username, password, hashOf, role);
            ok && LoginUser(users', username, password, verify) == Some(users'[|users|])
  {
  }

  // ---------- access control ----------

  /** The rejections of `require_auth`. */
  datatype Denial = NoToken | WrongTokenType | Forbidden | AccessExpired | BadAccessToken {

    /** The HTTP status that goes with the rejection. */
    function Status(): int {
      if Forbidden? then 403 else 401
    }

    /** The `error` field of the JSON body. */
    function Code(): string {
      match this
      case NoToken => "no_token"
      case WrongTokenType => "wrong_token_type"
      case Forbidden => "forbidden"
      case AccessExpired => "access_expired"
      case BadAccessToken => "bad_access_token"
    }
  }

  /** The outcome of the access check: the caller's identity, a rejection, or an
      uncaught exception (a token without `sub` makes `int(None)` raise). */
  datatype AuthDecision = Admit(userId: int, role: Option<string>) | Deny(reason: Denial) | Fault

  predicate IsBearer(header: string) {
    |header| >= 7 && header[..7] == "Bearer "
  }

  /** An empty role list admits every role; otherwise the token's role must be listed. */
  predicate RoleAllowed(roles: seq<string>, role: Option<string>) {
    |roles| == 0 || (role.Some? && role.value in roles)
  }

  /** The decision of `require_auth(*roles)` on an `Authorization` header (the empty
      string when absent): header shape first, then decoding, token type, role,
      and finally the subject. */
  function RequireAuth(roles: seq<string>, header: string, decode: string -> Decoded): (r: AuthDecision)
    ensures r == Deny(NoToken) <==> !IsBearer(header)
    ensures IsBearer(header) ==>
      var d := decode(header[7..]);
      && (r == Deny(AccessExpired) <==> d.Expired?)
      && (r == Deny(BadAccessToken) <==> d.Malformed?)
      && (r == Deny(WrongTokenType) <==> d.Verified? && d.claims.typ != Some("access"))
      && (r == Deny(Forbidden) <==> d.Verified? && d.claims.typ == Some("access") && !RoleAllowed(roles, d.claims.role))
      && (r.Admit? <==> d.Verified? && d.claims.typ == Some("access") && RoleAllowed(roles, d.claims.role) && d.claims.sub.Some?)
      && (r.Admit? ==> r.userId == d.claims.sub.value && r.role == d.claims.role)
  {
    if !IsBearer(header) then Deny(NoToken)
    else
      match decode(header[7..])
      case Expired => Deny(AccessExpired)
      case Malformed => Deny(BadAccessToken)
      case Verified(p) =>
        if p.typ != Some("access") then Deny(WrongTokenType)
        else if !RoleAllowed(roles, p.role) then Deny(Forbidden)
        else if p.sub.None? then Fault
        else Admit(p.sub.value, p.role)
  }

  /** An access token issued to `user` admits them on any route whose role list is
      empty or names their role. */
  lemma AccessTokenAdmitted(cfg: Config, user: User, now: int, roles: seq<string>,
                            token: string, decode: string -> Decoded)
    requires decode(token) == Verified(AccessClaims(cfg, user, now))
    requires |roles| == 0 || user.role in roles
    ensures RequireAuth(roles, "Bearer " + token, decode) == Admit(user.id, Some(user.role))
  {
  }

  /** A refresh token presented as a bearer token is refused as the wrong type. */
  lemma RefreshTokenNotAccess(cfg: Config, user: User, jti: string, now: int, roles: seq<string>,
                              token: string, decode: string -> Decoded)
    requires decode(token) == Verified(RefreshClaims(cfg, user, jti, now))
    ensures RequireAuth(roles, "Bearer " + token, decode) == Deny(WrongTokenType)
  {
  }

  /** An access token is never accepted where a refresh token is expected. */
  lemma AccessTokenNotRefresh(cfg: Config, user: User, now: int, later: int, token: string,
                              decode: string -> Decoded, tokens: map<string, RefreshToken>)
    requires decode(token) == Verified(AccessClaims(cfg, user, now))
    ensures VerifyRefresh(decode, tokens, token, later).None?
  {
  }

  // ---------- handlers ----------

  datatype RefreshError = NoRefresh | InvalidRefresh | UserInactive {
    function Code(): string {
      match this
      case NoRefresh => "no_refresh"
      case InvalidRefresh => "invalid_refresh"
      case UserInactive => "user_inactive"
    }
  }

  /** The reply of `POST /api/refresh` (every rejection is a 401). */
  datatype RefreshReply = Refreshed(access: string, role: string) | RefreshDenied(error: RefreshError) | RefreshFault

  /** A cookie value Python treats as present (neither missing nor empty). */
  predicate Present(cookie: Option<string>) {
    cookie.Some? && cookie.value != ""
  }

  /** `handle_refresh`: checks the `rt` cookie and the owning user, then returns a new
      access token. Its result carries no token table: the stored refresh tokens are
      neither revoked nor replaced, so no rotation takes place. */
  function HandleRefresh(cfg: Config, encode: Claims -> string, decode: string -> Decoded,
                         users: seq<User>, tokens: map<string, RefreshToken>,
                         cookie: Option<string>, now: int): (r: RefreshReply)
    ensures r == RefreshDenied(NoRefresh) <==> !Present(cookie)
    ensures r == RefreshDenied(InvalidRefresh) <==> Present(cookie) && VerifyRefresh(decode, tokens, cookie.value, now).None?
    ensures r == RefreshFault <==>
      Present(cookie) && VerifyRefresh(decode, tokens, cookie.value, now).Some? && decode(cookie.value).claims.sub.None?
    ensures r == RefreshDenied(UserInactive) <==>
      && Present(cookie) && VerifyRefresh(decode, tokens, cookie.value, now).Some?
      && var sub := decode(cookie.value).claims.sub;
         sub.Some? && (FindById(users, sub.value).None? || !FindById(users, sub.value).value.isActive)
    ensures r.Refreshed? ==>
      && VerifyRefresh(decode, tokens, cookie.value, now).Some?
      && exists i :: 0 <= i < |users| && users[i].isActive
                     && Some(users[i].id) == decode(cookie.value).claims.sub
                     && r == Refreshed(encode(AccessClaims(cfg, users[i], now)), users[i].role)
  {
    if !Present(cookie) then RefreshDenied(NoRefresh)
    else
      match VerifyRefresh(decode, tokens, cookie.value, now)
      case None => RefreshDenied(InvalidRefresh)
      case Some(p) =>
        if p.sub.None? then RefreshFault
        else
          match FindById(users, p.sub.value)
          case None => RefreshDenied(UserInactive)
          case Some(user) =>
            if !user.isActive then RefreshDenied(UserInactive)
            else Refreshed(encode(AccessClaims(cfg, user, now)), user.role)
  }

  /** Without rotation the same refresh cookie keeps working: a later refresh, while the
      stored row has not expired and the signature still checks, succeeds again. */
  lemma RefreshDoesNotRotate(cfg: Config, encode: Claims -> string, decode: string -> Decoded,
                             users: seq<User>, tokens: map<string, RefreshToken>,
                             cookie: Option<string>, now: int, later: int)
    requires HandleRefresh(cfg, encode, decode, users, tokens, cookie, now).Refreshed?
    requires tokens[decode(cookie.value).claims.jti.value].expiresAt > later
    ensures HandleRefresh(cfg, encode, decode, users, tokens, cookie, later).Refreshed?
  {
  }

  /** `handle_logout`: revokes the cookie's `jti` when `verify_refresh` accepts the
      cookie; a missing or invalid cookie leaves the table as it was. The reply is
      always `ok` and the cookie is cleared, so only the table is returned. */
  function HandleLogout(decode: string -> Decoded, tokens: map<string, RefreshToken>,
                        cookie: Option<string>, now: int): (r: map<string, RefreshToken>)
    ensures !Present(cookie) || VerifyRefresh(decode, tokens, cookie.value, now).None? ==> r == tokens
    ensures Present(cookie) && VerifyRefresh(decode, tokens, cookie.value, now).Some? ==>
      var j := decode(cookie.value).claims.jti.value;
      && r.Keys == tokens.Keys
      && r[j] == tokens[j].(revoked := true)
      && forall k :: k in tokens && k != j ==> r[k] == tokens[k]
  {
    if !Present(cookie) then tokens
    else
      match VerifyRefresh(decode, tokens, cookie.value, now)
      case None => tokens
      case Some(p) => RevokeRefresh(tokens, p.jti.value)
  }

  /** After logging out with a cookie, refreshing with that cookie is refused. */
  lemma LogoutThenRefreshRefused(cfg: Config, encode: Claims -> string, decode: string -> Decoded,
                                 users: seq<User>, tokens: map<string, RefreshToken>,
                                 cookie: Option<string>, now: int, later: int)
    requires Present(cookie)
    requires now <= later
    ensures HandleRefresh(cfg, encode, decode, users, HandleLogout(decode, tokens, cookie, now), cookie, later)
         == RefreshDenied(InvalidRefresh)
  {
  }

  /** The reply of `POST /api/login`; the refresh token goes into the `rt` cookie. */
  datatype LoginReply = LoggedIn(access: string, role: string, refreshCookie: string) | BadCredentials | LoginFault

  /** `handle_login`: checks the credentials, then issues an access token and a
      persisted refresh token under the fresh identifier `jti`. */
  function HandleLogin(cfg: Config, encode: Claims -> string, verify: (string, string) -> bool,
                       users: seq<User>, tokens: map<string, RefreshToken>,
                       username: string, password: string, jti: string, now: int)
    : (r: (LoginReply, map<string, RefreshToken>))
    ensures r.0 == BadCredentials <==> LoginUser(users, username, password, verify).None?
    ensures r.0.LoggedIn? <==> LoginUser(users, username, password, verify).Some? && jti !in tokens
    ensures r.0 == LoginFault <==> LoginUser(users, username, password, verify).Some? && jti in tokens
    ensures !r.0.LoggedIn? ==> r.1 == tokens
    ensures r.0.LoggedIn? ==>
      var user := LoginUser(users, username, password, verify).value;
      && r.0 == LoggedIn(encode(AccessClaims(cfg, user, now)), user.role, encode(RefreshClaims(cfg, user, jti, now)))
      && r.1 == tokens[jti := RefreshToken(jti, user.id, false, now, now + cfg.refreshTtlDays * SecondsPerDay)]
  {
    match LoginUser(users, username, password, verify)
    case None => (BadCredentials, tokens)
    case Some(user) =>
      match MakeRefresh(cfg, encode, tokens, user, jti, now)
      case None => (LoginFault, tokens)
      case Some((issued, tokens')) =>
        (LoggedIn(encode(AccessClaims(cfg, user, now)), user.role, issued.token), tokens')
  }

  /** The cookie handed out at login can be exchanged for an access token until the
      refresh lifetime runs out (given a signature check that returns the signed claims). */
  lemma LoginThenRefresh(cfg: Config, encode: Claims -> string, decode: string -> Decoded,
                         verify: (string, string) -> bool, users: seq<User>, tokens: map<string, RefreshToken>,
                         username: string, password: string, jti: string, now: int, later: int)
    requires UsersWellFormed(users)
    requires jti != ""
    requires HandleLogin(cfg, encode, verify, users, tokens, username, password, jti, now).0.LoggedIn?
    requires var user := LoginUser(users, username, password, verify).value;
             var claims := RefreshClaims(cfg, user, jti, now);
             encode(claims) != "" && decode(encode(claims)) == Verified(claims)
    requires later < now + cfg.refreshTtlDays * SecondsPerDay
    ensures var (reply, tokens') := HandleLogin(cfg, encode, verify, users, tokens, username, password, jti, now);
            var user := LoginUser(users, username, password, verify).value;
            HandleRefresh(cfg, encode, decode, users, tokens', Some(reply.refreshCookie), later)
              == Refreshed(encode(AccessClaims(cfg, user, later)), user.role)
  {
  }
}
