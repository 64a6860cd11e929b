/**
 * `JwtTokenService` over an abstract token: the claims a signed token carries
 * (section 4.1 of RFC 7519). Signing and parsing are parameters: `sign` stands for
 * `compact()` with the HMAC key, and `parse` for the parser that checks the signature
 * and yields the claims, or nothing for a string it rejects.
 */
module Tokens {
  import opened Wrappers
  import opened Clock
  import opened Text
  import opened Principals

  /** A claim value as JSON gives it back. */
  datatype Claim = Str(s: string) | Num(n: int) | Flag(b: bool) | StrList(items: seq<string>)

  /** The payload of a token: subject ("sub"), issued-at ("iat"), expiry ("exp") and every
      other claim by name. A parsed foreign token may lack any of the first three. */
  datatype Token = Token(sub: Option<string>, iat: Option<Millis>, exp: Option<Millis>, claims: map<string, Claim>)

  type Parser = string -> Option<Token>
  type Signer = Token -> string

  /** Signing then parsing gives back the payload: the one fact the model asks of the
      library's signature scheme. */
  ghost predicate Sound(sign: Signer, parse: Parser) {
    forall t :: parse(sign(t)) == Some(t)
  }

  /** The configured lifetimes in milliseconds. */
  datatype Config = Config(accessTtl: int, refreshTtl: int)

  /** The claim names the builder sets after the extra claims, overriding them. */
  const REGISTERED: set<string> := {"sub", "iat", "exp"}

  datatype TokenError =
    | Unparseable   // the parser rejected the string
    | NoSubject     // `getSubject()` was null where the caller dereferences it
    | NoExpiry      // `getExpiration()` was null where the caller dereferences it
    | NotRefresh    // `generateAccessFromRefresh` on a token that is not a refresh token

  /** `buildToken`: the extra claims first, then subject, issued-at and expiry, so these
      three win over extra claims of the same name. */
  function BuildToken(subject: string, extra: map<string, Claim>, ttl: int, now: Millis): (t: Token)
    ensures t.sub == Some(subject) && t.iat == Some(now)
    ensures t.exp.Some? && t.exp.value - t.iat.value == ttl
    ensures forall k :: k in t.claims <==> k in extra && k !in REGISTERED
    ensures forall k :: k in t.claims ==> t.claims[k] == extra[k]
  {
    Token(Some(subject), Some(now), Some(now + ttl), map k | k in extra && k !in REGISTERED :: extra[k])
  }

  /** `generateAccessToken`: a token for the user's name living the access lifetime. */
  function GenerateAccessToken(user: Principal, extra: map<string, Claim>, now: Millis, cfg: Config): (t: Token)
    ensures t.sub == Some(user.username) && t.iat == Some(now) && t.exp == Some(now + cfg.accessTtl)
    ensures forall k :: k in t.claims <==> k in extra && k !in REGISTERED
  {
    BuildToken(user.username, extra, cfg.accessTtl, now)
  }

  /** `generateRefreshToken`: a token for the user's name whose only extra claim is
      `type = "refresh"`, living the refresh lifetime. */
  function GenerateRefreshToken(user: Principal, now: Millis, cfg: Config): (t: Token)
    ensures t.sub == Some(user.username) && t.iat == Some(now) && t.exp == Some(now + cfg.refreshTtl)
    ensures t.claims == map["type" := Str("refresh")]
  {
    BuildToken(user.username, map["type" := Str("refresh")], cfg.refreshTtl, now)
  }

  /** `Object.toString()` of a claim value. */
  function ClaimText(c: Claim): string {
    match c
    case Str(s) => s
    case Num(n) => IntText(n)
    case Flag(b) => if b then "true" else "false"
    case StrList(items) => ListText(items)
  }

  /** Only the string claim "refresh" prints as "refresh". */
  lemma RefreshText(c: Claim)
    ensures ClaimText(c) == "refresh" <==> c == Str("refresh")
  {
  }

  /** `isRefreshToken`: a parseable token whose "type" claim prints as "refresh"; any
      parse failure answers false instead of throwing. */
  function IsRefreshToken(parse: Parser, tok: string): (b: bool)
    ensures b <==> parse(tok).Some? && "type" in parse(tok).value.claims
                   && parse(tok).value.claims["type"] == Str("refresh")
  {
    match parse(tok)
    case None => false
    case Some(t) =>
      if "type" in t.claims then
        RefreshText(t.claims["type"]);
        ClaimText(t.claims["type"]) == "refresh"
      else false
  }

  /** `getUsername`: the subject, or null; throws when the token does not parse. */
  function GetUsername(parse: Parser, tok: string): (r: Result<Option<string>, TokenError>)
    ensures r.Err? <==> parse(tok).None?
    ensures r.Ok? ==> r.value == parse(tok).value.sub
  {
    match parse(tok)
    case None => Err(Unparseable)
    case Some(t) => Ok(t.sub)
  }

  /** `isExpired`: the expiry lies strictly before `now`. */
  function IsExpired(parse: Parser, tok: string, now: Millis): (r: Result<bool, TokenError>)
    ensures r.Ok? <==> parse(tok).Some? && parse(tok).value.exp.Some?
    ensures r.Ok? ==> (r.value <==> parse(tok).value.exp.value < now)
  {
    match parse(tok)
    case None => Err(Unparseable)
    case Some(t) =>
      match t.exp
      case None => Err(NoExpiry)
      case Some(e) => Ok(e < now)
  }

  /** `isTokenValid`: the subject names this user and the token has not expired. The
      subject is compared first, and `&&` skips the expiry test when it differs. */
  function IsTokenValid(parse: Parser, tok: string, user: Principal, now: Millis): (r: Result<bool, TokenError>)
    ensures r == Ok(true) <==>
              && parse(tok).Some? && parse(tok).value.sub == Some(user.username)
              && parse(tok).value.exp.Some? && !(parse(tok).value.exp.value < now)
    ensures parse(tok).Some? && parse(tok).value.sub.Some? && parse(tok).value.sub.value != user.username ==>
              r == Ok(false)
  {
    match GetUsername(parse, tok)
    case Err(e) => Err(e)
    case Ok(None) => Err(NoSubject)
    case Ok(Some(name)) =>
      if name != user.username then Ok(false)
      else
        match IsExpired(parse, tok, now)
        case Err(e) => Err(e)
        case Ok(expired) => Ok(!expired)
  }

  /** `generateAccessFromRefresh`: rejects anything but a refresh token; otherwise a fresh
      access token for the given user, with no extra claims. Its subject comes from
      `user`, whatever the refresh token names. */
  function GenerateAccessFromRefresh(parse: Parser, tok: string, user: Principal, now: Millis, cfg: Config): (r: Result<Token, TokenError>)
    ensures !IsRefreshToken(parse, tok) <==> r == Err(NotRefresh)
    ensures r.Ok? <==> IsRefreshToken(parse, tok)
    ensures r.Ok? ==> r.value.sub == Some(user.username) && r.value.claims == map[]
                      && r.value.exp == Some(now + cfg.accessTtl)
  {
    if !IsRefreshToken(parse, tok) then Err(NotRefresh)
    else Ok(GenerateAccessToken(user, map[], now, cfg))
  }

  /** The subject of an issued token is the name it was built for, even when the extra
      claims hold a "sub" of their own. */
  lemma IssuedSubjectWins(sign: Signer, parse: Parser, subject: string, extra: map<string, Claim>, ttl: int, now: Millis)
    requires Sound(sign, parse)
    ensures GetUsername(parse, sign(BuildToken(subject, extra, ttl, now))) == Ok(Some(subject))
  {
  }

  /** An issued token is valid for a user exactly when it names that user and the
      moment of use is no later than issue time plus lifetime. */
  lemma IssuedTokenValidity(sign: Signer, parse: Parser, subject: string, extra: map<string, Claim>,
                            ttl: int, now: Millis, user: Principal, at: Millis)
    requires Sound(sign, parse)
    ensures IsTokenValid(parse, sign(BuildToken(subject, extra, ttl, now)), user, at)
            == Ok(user.username == subject && at <= now + ttl)
  {
  }

  /** An issued refresh token passes the refresh test. */
  lemma IssuedRefreshIsRefresh(sign: Signer, parse: Parser, user: Principal, now: Millis, cfg: Config)
    requires Sound(sign, parse)
    ensures IsRefreshToken(parse, sign(GenerateRefreshToken(user, now, cfg)))
  {
  }

  /** An access token whose extra claims do not set `type = "refresh"` fails the refresh
      test, so it cannot be exchanged for a new access token. */
  lemma AccessIsNotRefresh(sign: Signer, parse: Parser, user: Principal, extra: map<string, Claim>, now: Millis, cfg: Config,
                           holder: Principal, later: Millis)
    requires Sound(sign, parse)
    requires "type" !in extra || extra["type"] != Str("refresh")
    ensures !IsRefreshToken(parse, sign(GenerateAccessToken(user, extra, now, cfg)))
    ensures GenerateAccessFromRefresh(parse, sign(GenerateAccessToken(user, extra, now, cfg)), holder, later, cfg)
            == Err(NotRefresh)
  {
  }
}
