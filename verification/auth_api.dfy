/**
 * `AuthController` under `/api/auth`: register, login, refresh and whoami. Tokens
 * leave the controller signed: `sign` is the token service's signer and `parse` its
 * parser, as in the tokens module.
 */
module AuthApi {
  import opened Wrappers
  import opened Clock
  import opened Text
  import opened Tables
  import opened Entities
  import opened Principals
  import opened Tokens
  import opened Credentials

  /** The fields of `RegisterRequest`; `role` is optional. */
  datatype RegisterRequest = RegisterRequest(name: string, email: string, membershipId: string,
                                             password: string, role: Option<string>)

  /** Why a request ended in an exception that leaves the controller. */
  datatype Fault =
    | LookupFault(lookup: LookupError)
    | TokenFault(token: TokenError)
    | AuthFault(auth: AuthError)

  /** What a controller method answers. */
  datatype Reply =
    | Created(email: string, role: string)            // 201, the registered user
    | TokenPair(access: string, refresh: string)      // 200, a `JwtAuthResponse`
    | Identity(username: string, roles: set<string>)  // 200, whoami
    | Conflict                                        // 409, email already registered
    | Unauthorized                                    // 401, built by the controller
    | Raised(fault: Fault)                            // an exception escapes

  /** The status the controller itself chooses; `None` when an exception escapes and the
      status is left to exception handling outside these files. */
  function Status(r: Reply): (code: Option<int>)
    ensures code.Some? <==> !r.Raised?
    ensures r.Created? <==> code == Some(201)
    ensures (r.TokenPair? || r.Identity?) <==> code == Some(200)
  {
    match r
    case Created(_, _) => Some(201)
    case TokenPair(_, _) => Some(200)
    case Identity(_, _) => Some(200)
    case Conflict => Some(409)
    case Unauthorized => Some(401)
    case Raised(_) => None
  }

  const DEFAULT_ROLE: string := "ROLE_MEMBER"

  /** The role a registration stores: the requested one verbatim when it has text,
      ROLE_MEMBER when it is missing or blank. Nothing restricts what may be asked for. */
  function EffectiveRole(role: Option<string>): (r: string)
    ensures role.None? || IsBlank(role.value) ==> r == DEFAULT_ROLE
    ensures role.Some? && HasText(role.value) ==> r == role.value
    ensures HasText(r)
  {
    if role.None? || IsBlank(role.value) then
      assert HasText(DEFAULT_ROLE) by { assert !IsJavaWhitespace(DEFAULT_ROLE[0]); }
      DEFAULT_ROLE
    else
      BlankIffNoText(role.value);
      role.value
  }

  /**
   * `register`. A taken email answers 409 and stores nothing; so does a lookup that
   * fails, by raising. Otherwise the user is saved with the encoded password and the
   * effective role, under the next id.
   */
  function Register(users: Table<User>, req: RegisterRequest, encode: Encoder): (r: (Table<User>, Reply))
    ensures !r.1.Created? ==> r.0 == users
    ensures Valid(users) ==> (r.1.Created? <==> !EmailTaken(users, req.email))
    ensures Valid(users) && EmailTaken(users, req.email) ==> r.1 in {Conflict, Raised(LookupFault(NonUniqueEmail))}
    ensures Valid(users) ==> forall id: Id :: SoleHolder(users, req.email, id) ==> r.1 == Conflict
    ensures Valid(users) && SharedEmail(users, req.email) ==> r.1 == Raised(LookupFault(NonUniqueEmail))
    ensures r.1.Created? ==>
              && r.1 == Created(req.email, EffectiveRole(req.role))
              && r.0.next == users.next + 1
              && r.0.rows == users.rows[users.next := User(req.name, req.email, req.membershipId,
                                                           encode(req.password), EffectiveRole(req.role))]
  {
    match FindByEmail(users, Some(req.email))
    case Ok(_) => (users, Conflict)
    case Err(UsernameNotFound) =>
      var user := User(req.name, req.email, req.membershipId, encode(req.password), EffectiveRole(req.role));
      (Insert(users, user).0, Created(user.email, user.role))
    case Err(e) => (users, Raised(LookupFault(e)))
  }

  /** The extra claims of a login access token: the principal's authorities as "roles". */
  function RolesClaim(p: Principal): (m: map<string, Claim>)
    ensures m.Keys == {"roles"} && m["roles"] == StrList(p.authorities)
  {
    map["roles" := StrList(p.authorities)]
  }

  /**
   * `login`. The credentials go to the authentication manager; on success the answer
   * carries an access token with the principal's authorities as "roles", issued at
   * `accessAt`, and a refresh token issued at `refreshAt` (the service reads the clock
   * once per token). A failure leaves the controller as an exception.
   */
  function Login(users: Table<User>, memory: seq<Principal>, email: string, password: string,
                 matches: Matcher, sign: Signer, accessAt: Millis, refreshAt: Millis, cfg: Config): (r: Reply)
    ensures r.TokenPair? || r.Raised?
    ensures r.Raised? <==> Authenticate(users, memory, email, password, matches).Err?
    ensures r.Raised? ==> r.fault == AuthFault(Authenticate(users, memory, email, password, matches).error)
  {
    match Authenticate(users, memory, email, password, matches)
    case Err(e) => Raised(AuthFault(e))
    case Ok(p) =>
      TokenPair(sign(GenerateAccessToken(p, RolesClaim(p), accessAt, cfg)),
                sign(GenerateRefreshToken(p, refreshAt, cfg)))
  }

  /** The access token of a successful login names the authenticated user, lists exactly
      its authorities as "roles", expires one access lifetime after issue and is no
      refresh token; the refresh token names the same user and is one. */
  lemma LoginTokens(users: Table<User>, memory: seq<Principal>, email: string, password: string,
                    matches: Matcher, sign: Signer, parse: Parser, accessAt: Millis, refreshAt: Millis, cfg: Config)
    requires Sound(sign, parse)
    requires Authenticate(users, memory, email, password, matches).Ok?
    ensures var p := Authenticate(users, memory, email, password, matches).value;
            var r := Login(users, memory, email, password, matches, sign, accessAt, refreshAt, cfg);
            && parse(r.access) == Some(Token(Some(email), Some(accessAt), Some(accessAt + cfg.accessTtl), RolesClaim(p)))
            && parse(r.refresh).Some? && parse(r.refresh).value.sub == Some(email)
            && parse(r.refresh).value.exp == Some(refreshAt + cfg.refreshTtl)
            && IsRefreshToken(parse, r.refresh) && !IsRefreshToken(parse, r.access)
  {
    var p := Authenticate(users, memory, email, password, matches).value;
    var access := GenerateAccessToken(p, RolesClaim(p), accessAt, cfg);
    assert parse(sign(access)) == Some(access);
    assert access.claims == RolesClaim(p);
    IssuedRefreshIsRefresh(sign, parse, p, refreshAt, cfg);
    assert parse(sign(GenerateRefreshToken(p, refreshAt, cfg))) == Some(GenerateRefreshToken(p, refreshAt, cfg));
  }

  /**
   * `refresh`. The subject is read and its user loaded before any check, so an
   * unparseable token or an unknown subject raises. A token that is not a refresh token,
   * or whose expiry is before `checkAt`, answers 401. Otherwise a new access token issued
   * at `issueAt` comes back with the same refresh token.
   */
  function Refresh(users: Table<User>, parse: Parser, sign: Signer, tok: string,
                   checkAt: Millis, issueAt: Millis, cfg: Config): (r: Reply)
    ensures parse(tok).None? ==> r == Raised(TokenFault(Unparseable))
    ensures r.TokenPair? ==>
              && r.refresh == tok && IsRefreshToken(parse, tok)
              && parse(tok).value.exp.Some? && checkAt <= parse(tok).value.exp.value
              && LoadUserByUsername(users, parse(tok).value.sub).Ok?
    ensures r == Unauthorized <==>
              && parse(tok).Some? && LoadUserByUsername(users, parse(tok).value.sub).Ok?
              && (!IsRefreshToken(parse, tok) || IsExpired(parse, tok, checkAt) == Ok(true))
    ensures (parse(tok).Some? && LoadUserByUsername(users, parse(tok).value.sub).Ok? && IsRefreshToken(parse, tok)
             && IsExpired(parse, tok, checkAt) == Ok(false)) ==> r.TokenPair?
  {
    match GetUsername(parse, tok)
    case Err(e) => Raised(TokenFault(e))
    case Ok(username) =>
      match LoadUserByUsername(users, username)
      case Err(e) => Raised(LookupFault(e))
      case Ok(principal) =>
        if !IsRefreshToken(parse, tok) then Unauthorized
        else
          match IsExpired(parse, tok, checkAt)
          case Err(e) => Raised(TokenFault(e))
          case Ok(true) => Unauthorized
          case Ok(false) =>
            match GenerateAccessFromRefresh(parse, tok, principal, issueAt, cfg)
            case Err(e) => Raised(TokenFault(e))
            case Ok(access) => TokenPair(sign(access), tok)
  }

  /** A refreshed access token names the user the refresh token names, carries no
      claims beyond subject, issue and expiry (so no "roles"), and is no refresh token. */
  lemma RefreshedAccessToken(users: Table<User>, parse: Parser, sign: Signer, tok: string,
                             checkAt: Millis, issueAt: Millis, cfg: Config)
    requires Sound(sign, parse)
    requires Refresh(users, parse, sign, tok, checkAt, issueAt, cfg).TokenPair?
    ensures var r := Refresh(users, parse, sign, tok, checkAt, issueAt, cfg);
            parse(r.access) == Some(Token(parse(tok).value.sub, Some(issueAt), Some(issueAt + cfg.accessTtl), map[]))
  {
  }

  /** `whoami`: 401 without an authenticated principal; otherwise its name and the set of
      its authorities. */
  function Whoami(ctx: SecurityContext): (r: Reply)
    ensures r == Unauthorized <==> ctx.None? || !ctx.value.authenticated
    ensures r != Unauthorized ==>
              && r.Identity? && r.username == ctx.value.principal.username
              && forall a :: a in r.roles <==> a in ctx.value.authorities
  {
    if ctx.None? || !ctx.value.authenticated then Unauthorized
    else Identity(ctx.value.principal.username, set a | a in ctx.value.authorities)
  }
}
