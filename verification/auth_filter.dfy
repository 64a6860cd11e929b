/**
 * `JwtAuthenticationFilter.doFilterInternal` as a pure function from the
 * `Authorization` header and the current security context to the new context.
 * Bearer credentials follow section 2.1 of RFC 6750.
 */
module AuthFilter {
  import opened Wrappers
  import opened Clock
  import opened Text
  import opened Tables
  import opened Entities
  import opened Principals
  import opened Tokens

  const BEARER: string := "Bearer "

  /** The token of an `Authorization` header: the header minus its first seven
      characters, when it has text and starts with "Bearer ". */
  function BearerToken(header: Option<string>): (r: Option<string>)
    ensures r.Some? <==> header.Some? && StartsWith(header.value, BEARER)
    ensures r.Some? ==> header.value == BEARER + r.value
  {
    if header.Some? && HasText(header.value) && StartsWith(header.value, BEARER) then
      Some(header.value[7..])
    else
      assert header.Some? && StartsWith(header.value, BEARER) ==> HasText(header.value) by {
        if header.Some? && StartsWith(header.value, BEARER) {
          PrefixGivesText(header.value, BEARER);
        }
      }
      None
  }

  /** Whatever follows "Bearer " is taken as the token, unchanged. */
  lemma BearerRoundTrip(tok: string)
    ensures BearerToken(Some(BEARER + tok)) == Some(tok)
  {
  }

  /** The body of the filter's `try` block for a context without authentication: the
      principal the token authenticates, or `None` when any step fails or the token is
      not valid for the loaded user. */
  function Resolve(parse: Parser, users: Table<User>, tok: string, now: Millis): (r: Option<Principal>)
    ensures r.Some? <==>
              && parse(tok).Some? && parse(tok).value.sub.Some?
              && LoadUserByUsername(users, parse(tok).value.sub).Ok?
              && IsTokenValid(parse, tok, LoadUserByUsername(users, parse(tok).value.sub).value, now) == Ok(true)
    ensures r.Some? ==>
              && r.value == LoadUserByUsername(users, parse(tok).value.sub).value
              && Some(r.value.username) == parse(tok).value.sub
              && parse(tok).value.exp.Some? && now <= parse(tok).value.exp.value
  {
    match GetUsername(parse, tok)
    case Err(_) => None
    case Ok(None) => None
    case Ok(Some(name)) =>
      match LoadUserByUsername(users, Some(name))
      case Err(_) => None
      case Ok(user) =>
        match IsTokenValid(parse, tok, user, now)
        case Ok(true) => Some(user)
        case _ => None
  }

  /**
   * `doFilterInternal`: the context the rest of the chain runs with. An existing
   * authentication is never replaced; a new one is set only from a bearer token valid
   * for the user its subject resolves to, and then it carries exactly that user's
   * authorities. Every failure is swallowed, so the chain always continues.
   */
  function DoFilter(header: Option<string>, ctx: SecurityContext, parse: Parser, users: Table<User>, now: Millis): (r: SecurityContext)
    ensures ctx.Some? ==> r == ctx
    ensures BearerToken(header).None? ==> r == ctx
    ensures ctx.None? && BearerToken(header).Some? ==>
              match Resolve(parse, users, BearerToken(header).value, now)
              case Some(p) => r == Some(Authentication(p, p.authorities, true))
              case None => r == ctx
  {
    match BearerToken(header)
    case None => ctx
    case Some(tok) =>
      if ctx.Some? then ctx
      else
        match Resolve(parse, users, tok, now)
        case Some(user) => Some(Authentication(user, user.authorities, true))
        case None => ctx
  }

  /** A token whose expiry has passed never authenticates a request. */
  lemma ExpiredTokenIgnored(header: Option<string>, ctx: SecurityContext, parse: Parser, users: Table<User>, now: Millis)
    requires BearerToken(header).Some?
    requires var t := parse(BearerToken(header).value); t.Some? && t.value.exp.Some? && t.value.exp.value < now
    ensures DoFilter(header, ctx, parse, users, now) == ctx
  {
  }

  /** A token whose subject no stored user has as email never authenticates a request. */
  lemma UnknownSubjectIgnored(header: Option<string>, ctx: SecurityContext, parse: Parser, users: Table<User>, now: Millis)
    requires Valid(users)
    requires BearerToken(header).Some?
    requires var t := parse(BearerToken(header).value); t.Some? && t.value.sub.Some? && !EmailTaken(users, t.value.sub.value)
    ensures DoFilter(header, ctx, parse, users, now) == ctx
  {
  }

  /** A string the parser rejects never authenticates a request. */
  lemma UnparseableTokenIgnored(header: Option<string>, ctx: SecurityContext, parse: Parser, users: Table<User>, now: Millis)
    requires BearerToken(header).Some? && parse(BearerToken(header).value).None?
    ensures DoFilter(header, ctx, parse, users, now) == ctx
  {
  }
}
