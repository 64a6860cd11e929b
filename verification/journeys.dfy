/**
 * Requests chained across components: a login's tokens presented to the filter, the
 * rule table and the controllers.
 */
module Journeys {
  import opened Wrappers
  import opened Clock
  import opened Text
  import opened Tables
  import opened Entities
  import opened Principals
  import opened Tokens
  import opened AuthFilter
  import opened Policy
  import opened Credentials
  import opened AuthApi

  /** A well-formed stored user with a unique email who logs in with the right password,
      and then presents the access token before it expires, is authenticated by the
      filter as exactly that user with exactly its stored role; whoami then reports both. */
  lemma StoredUserSession(users: Table<User>, memory: seq<Principal>, id: Id, raw: string,
                          encode: Encoder, matches: Matcher, sign: Signer, parse: Parser,
                          accessAt: Millis, refreshAt: Millis, cfg: Config, now: Millis)
    requires Valid(users) && id in users.rows && SoleHolder(users, users.rows[id].email, id)
    requires users.rows[id].password == encode(raw) && WellFormed(users.rows[id])
    requires EncoderSound(encode, matches) && Sound(sign, parse)
    requires now <= accessAt + cfg.accessTtl
    ensures var u := users.rows[id];
            var r := Login(users, memory, u.email, raw, matches, sign, accessAt, refreshAt, cfg);
            var ctx := DoFilter(Some(BEARER + r.access), None, parse, users, now);
            && r.TokenPair?
            && ctx == Some(Authentication(PrincipalOf(u).value, [u.role], true))
            && Whoami(ctx) == Identity(u.email, {u.role})
  {
  }

  /** The refresh token of that login buys a new access token until its own expiry and
      401 after it; the access token itself is never accepted as a refresh token. */
  lemma StoredUserRefresh(users: Table<User>, memory: seq<Principal>, id: Id, raw: string,
                          encode: Encoder, matches: Matcher, sign: Signer, parse: Parser,
                          accessAt: Millis, refreshAt: Millis, cfg: Config, checkAt: Millis, issueAt: Millis)
    requires Valid(users) && id in users.rows && SoleHolder(users, users.rows[id].email, id)
    requires users.rows[id].password == encode(raw) && WellFormed(users.rows[id])
    requires EncoderSound(encode, matches) && Sound(sign, parse)
    ensures var u := users.rows[id];
            var r := Login(users, memory, u.email, raw, matches, sign, accessAt, refreshAt, cfg);
            && (Refresh(users, parse, sign, r.refresh, checkAt, issueAt, cfg).TokenPair? <==>
                checkAt <= refreshAt + cfg.refreshTtl)
            && (checkAt > refreshAt + cfg.refreshTtl ==>
                  Refresh(users, parse, sign, r.refresh, checkAt, issueAt, cfg) == Unauthorized)
            && Refresh(users, parse, sign, r.access, checkAt, issueAt, cfg) == Unauthorized
  {
  }

  /**
   * The in-memory users "librarian" and "member" can log in, but the filter resolves
   * token subjects through the database users only: while no stored user has that name
   * as email, their access tokens never authenticate a request and their refresh tokens
   * fail on the user lookup.
   */
  lemma InMemoryTokensRejected(users: Table<User>, i: nat, encode: Encoder, matches: Matcher,
                               sign: Signer, parse: Parser, accessAt: Millis, refreshAt: Millis, cfg: Config,
                               now: Millis, issueAt: Millis)
    requires Valid(users) && i < 2
    requires EncoderSound(encode, matches) && Sound(sign, parse)
    requires !EmailTaken(users, InMemoryUsers(encode)[i].username)
    ensures var memory := InMemoryUsers(encode);
            var r := Login(users, memory, memory[i].username, DEMO_PASSWORD, matches, sign, accessAt, refreshAt, cfg);
            && r.TokenPair?
            && DoFilter(Some(BEARER + r.access), None, parse, users, now) == None
            && Refresh(users, parse, sign, r.refresh, now, issueAt, cfg) == Raised(LookupFault(UsernameNotFound))
  {
  }

  /**
   * A stored row the principal builder rejects, such as one saved through `addUser`
   * with a blank role, locks its email out: the lookup's exception stops the
   * authentication manager before the in-memory users are asked, whatever password
   * is given.
   */
  lemma MalformedUserLocksOut(users: Table<User>, memory: seq<Principal>, id: Id, raw: string,
                              matches: Matcher, sign: Signer, accessAt: Millis, refreshAt: Millis, cfg: Config)
    requires Valid(users) && id in users.rows && SoleHolder(users, users.rows[id].email, id)
    requires !WellFormed(users.rows[id])
    ensures Login(users, memory, users.rows[id].email, raw, matches, sign, accessAt, refreshAt, cfg)
            == Raised(AuthFault(InternalError))
  {
  }

  /**
   * Registration takes the requested role verbatim: anyone who registers with role
   * "ROLE_LIBRARIAN", logs in and presents the access token may then create and delete
   * books, which the rule table and `@PreAuthorize` both reserve for librarians.
   */
  lemma SelfRegisteredLibrarian(users: Table<User>, req: RegisterRequest, encode: Encoder, matches: Matcher,
                                sign: Signer, parse: Parser, accessAt: Millis, refreshAt: Millis, cfg: Config,
                                now: Millis, memory: seq<Principal>)
    requires Valid(users) && !EmailTaken(users, req.email) && req.email != "" && req.role == Some("ROLE_LIBRARIAN")
    requires EncoderSound(encode, matches) && Sound(sign, parse)
    requires now <= accessAt + cfg.accessTtl
    ensures var users' := Register(users, req, encode).0;
            var r := Login(users', memory, req.email, req.password, matches, sign, accessAt, refreshAt, cfg);
            var ctx := DoFilter(Some(BEARER + r.access), None, parse, users', now);
            && Register(users, req, encode).1 == Created(req.email, "ROLE_LIBRARIAN")
            && Decide(RULES, "/api/books", POST, ctx) == Allow
            && Decide(RULES, "/api/books/1", DELETE, ctx) == Allow
            && RequireLibrarian(ctx) == Allow
  {
    var users' := Register(users, req, encode).0;
    var id := users.next;
    assert HasText("ROLE_LIBRARIAN") by { assert !IsJavaWhitespace("ROLE_LIBRARIAN"[0]); }
    assert users'.rows[id].role == "ROLE_LIBRARIAN";
    assert SoleHolder(users', req.email, id);
    StoredUserSession(users', memory, id, req.password, encode, matches, sign, parse, accessAt, refreshAt, cfg, now);
    var r := Login(users', memory, req.email, req.password, matches, sign, accessAt, refreshAt, cfg);
    var ctx := DoFilter(Some(BEARER + r.access), None, parse, users', now);
    BookWritesNeedLibrarian("/api/books", POST, ctx);
    assert Matches(Subtree("/api/books"), "/api/books/1");
    BookWritesNeedLibrarian("/api/books/1", DELETE, ctx);
  }
}
