/**
 * The `authorizeHttpRequests` rule table of `SecurityConfig`: an ordered list of
 * (path patterns, method) to requirement, in which the first matching rule decides.
 */
module Policy {
  import opened Wrappers
  import opened Text
  import opened Principals

  datatype Method = GET | HEAD | POST | PUT | PATCH | DELETE | OPTIONS | TRACE

  /** A request-path pattern: one path, an ant-style subtree pattern (base, slash, double star), which also
      matches the base itself, or `anyRequest()`. */
  datatype Pattern = Exact(path: string) | Subtree(base: string) | AnyPath

  predicate Matches(p: Pattern, path: string) {
    match p
    case Exact(x) => path == x
    case Subtree(b) => path == b || StartsWith(path, b + "/")
    case AnyPath => true
  }

  datatype Requirement = PermitAll | Authenticated | HasRole(role: string)

  /** One `requestMatchers(...)` line: its patterns, its method if it names one, and what
      it requires. */
  datatype Rule = Rule(patterns: seq<Pattern>, verb: Option<Method>, need: Requirement)

  predicate RuleMatches(r: Rule, path: string, m: Method) {
    && (r.verb.None? || r.verb.value == m)
    && exists i :: 0 <= i < |r.patterns| && Matches(r.patterns[i], path)
  }

  datatype Denial =
    | Unauthenticated    // no authenticated principal
    | InsufficientRole   // authenticated, without the authority
    | NoRule             // no rule matched

  datatype Decision = Allow | Deny(why: Denial)

  predicate IsAuthenticated(ctx: SecurityContext) {
    ctx.Some? && ctx.value.authenticated
  }

  /** What one requirement decides for a context. */
  function Check(need: Requirement, ctx: SecurityContext): (d: Decision)
    ensures need == PermitAll ==> d == Allow
    ensures need != PermitAll ==> (d == Deny(Unauthenticated) <==> !IsAuthenticated(ctx))
    ensures need.HasRole? ==>
              (d == Allow <==> IsAuthenticated(ctx) && RoleAuthority(need.role) in ctx.value.authorities)
    ensures need == Authenticated ==> (d == Allow <==> IsAuthenticated(ctx))
  {
    match need
    case PermitAll => Allow
    case Authenticated => if IsAuthenticated(ctx) then Allow else Deny(Unauthenticated)
    case HasRole(role) =>
      if !IsAuthenticated(ctx) then Deny(Unauthenticated)
      else if RoleAuthority(role) in ctx.value.authorities then Allow
      else Deny(InsufficientRole)
  }

  /** Walk the rules in order; the first one that matches decides. */
  function Decide(rules: seq<Rule>, path: string, m: Method, ctx: SecurityContext): Decision
    decreases |rules|
  {
    if rules == [] then Deny(NoRule)
    else if RuleMatches(rules[0], path, m) then Check(rules[0].need, ctx)
    else Decide(rules[1..], path, m, ctx)
  }

  /** The first rule that matches is the one that decides, whatever follows it; when no
      rule matches the request is denied. */
  lemma {:induction false} FirstMatchWins(rules: seq<Rule>, path: string, m: Method, ctx: SecurityContext, i: nat)
    requires i < |rules| && RuleMatches(rules[i], path, m)
    requires forall j :: 0 <= j < i ==> !RuleMatches(rules[j], path, m)
    ensures Decide(rules, path, m, ctx) == Check(rules[i].need, ctx)
    decreases i
  {
    if i > 0 {
      assert !RuleMatches(rules[0], path, m);
      assert rules[1..][i - 1] == rules[i];
      FirstMatchWins(rules[1..], path, m, ctx, i - 1);
    }
  }

  lemma {:induction false} NoMatchDenies(rules: seq<Rule>, path: string, m: Method, ctx: SecurityContext)
    requires forall j :: 0 <= j < |rules| ==> !RuleMatches(rules[j], path, m)
    ensures Decide(rules, path, m, ctx) == Deny(NoRule)
    decreases |rules|
  {
    if rules != [] {
      assert !RuleMatches(rules[0], path, m);
      NoMatchDenies(rules[1..], path, m, ctx);
    }
  }

  const PUBLIC_PATTERNS: seq<Pattern> := [
    Exact("/api/auth/login"), Exact("/api/auth/register"), Exact("/api/auth/refresh"),
    Subtree("/v3/api-docs"), Subtree("/swagger-ui"), Exact("/swagger-ui.html")]

  /** The application's table, in declaration order. */
  const RULES: seq<Rule> := [
    Rule(PUBLIC_PATTERNS, None, PermitAll),
    Rule([Exact("/api/auth/whoami")], None, Authenticated),
    Rule([Subtree("/api/books")], Some(GET), PermitAll),
    Rule([Subtree("/api/books")], None, HasRole("LIBRARIAN")),
    Rule([Subtree("/api/transactions")], None, Authenticated),
    Rule([AnyPath], None, Authenticated)]

  /** Every path a pattern other than `anyRequest()` matches starts with its base. */
  function Base(p: Pattern): string
    requires !p.AnyPath?
  {
    match p
    case Exact(x) => x
    case Subtree(b) => b
  }

  lemma MatchHasBase(p: Pattern, path: string)
    requires !p.AnyPath? && Matches(p, path)
    ensures StartsWith(path, Base(p))
  {
  }

  /** A pattern other than `anyRequest()` misses every path that differs from its base
      at some index both share. */
  lemma MissesAt(p: Pattern, path: string, k: nat)
    requires !p.AnyPath? && k < |Base(p)| && k < |path| && path[k] != Base(p)[k]
    ensures !Matches(p, path)
  {
  }

  /** No public pattern matches a path under "/api/" whose next character is not 'a'. */
  lemma PublicMissesApi(path: string, m: Method)
    requires |path| > 5 && path[..5] == "/api/" && path[5] != 'a'
    ensures !RuleMatches(RULES[0], path, m)
  {
    forall i | 0 <= i < |PUBLIC_PATTERNS|
      ensures !Matches(PUBLIC_PATTERNS[i], path)
    {
      assert path[1] == path[..5][1] && path[..5][1] == 'a';
      MissesAt(PUBLIC_PATTERNS[i], path, if i < 3 then 5 else 1);
    }
  }

  /** Login, register, refresh and the API documentation are open to anyone. */
  lemma PublicEndpointsOpen(path: string, m: Method, ctx: SecurityContext)
    requires exists i :: 0 <= i < |PUBLIC_PATTERNS| && Matches(PUBLIC_PATTERNS[i], path)
    ensures Decide(RULES, path, m, ctx) == Allow
  {
  }

  /** `/api/auth/whoami` needs an authenticated principal, and no more. */
  lemma WhoamiNeedsAuthentication(m: Method, ctx: SecurityContext)
    ensures Decide(RULES, "/api/auth/whoami", m, ctx) == (if IsAuthenticated(ctx) then Allow else Deny(Unauthenticated))
  {
    var path := "/api/auth/whoami";
    forall i | 0 <= i < |PUBLIC_PATTERNS|
      ensures !Matches(PUBLIC_PATTERNS[i], path)
    {
      MissesAt(PUBLIC_PATTERNS[i], path, if i < 3 then 10 else 1);
    }
    assert Matches(RULES[1].patterns[0], path);
    FirstMatchWins(RULES, path, m, ctx, 1);
  }

  /** Reading the catalogue is public, whoever asks. */
  lemma BookReadsPublic(path: string, ctx: SecurityContext)
    requires Matches(Subtree("/api/books"), path)
    ensures Decide(RULES, path, GET, ctx) == Allow
  {
    BooksPathShape(path);
    PublicMissesApi(path, GET);
    MissesAt(Exact("/api/auth/whoami"), path, 5);
    assert Matches(RULES[2].patterns[0], path);
    FirstMatchWins(RULES, path, GET, ctx, 2);
  }

  lemma BooksPathShape(path: string)
    requires Matches(Subtree("/api/books"), path)
    ensures |path| > 5 && path[..5] == "/api/" && path[5] == 'b'
  {
  }

  /** Any other method on the catalogue needs the LIBRARIAN role, and both anonymous
      callers and authenticated callers without ROLE_LIBRARIAN are refused. */
  lemma BookWritesNeedLibrarian(path: string, m: Method, ctx: SecurityContext)
    requires Matches(Subtree("/api/books"), path) && m != GET
    ensures Decide(RULES, path, m, ctx) == RequireLibrarian(ctx)
  {
    BooksPathShape(path);
    PublicMissesApi(path, m);
    MissesAt(Exact("/api/auth/whoami"), path, 5);
    assert Matches(RULES[3].patterns[0], path);
    FirstMatchWins(RULES, path, m, ctx, 3);
  }

  /** Borrowing and returning need an authenticated principal and no role: any
      authenticated caller may borrow on behalf of any user id. */
  lemma TransactionsNeedAuthenticationOnly(path: string, m: Method, ctx: SecurityContext)
    requires Matches(Subtree("/api/transactions"), path)
    ensures Decide(RULES, path, m, ctx) == (if IsAuthenticated(ctx) then Allow else Deny(Unauthenticated))
  {
    MatchHasBase(Subtree("/api/transactions"), path);
    assert path[..5] == path[..17][..5];
    assert path[5] == path[..17][5];
    PublicMissesApi(path, m);
    MissesAt(Exact("/api/auth/whoami"), path, 5);
    MissesAt(Subtree("/api/books"), path, 5);
    assert Matches(RULES[4].patterns[0], path);
    FirstMatchWins(RULES, path, m, ctx, 4);
  }

  /** A request that none of the five earlier rules matches, by path or by verb, falls
      to `anyRequest().authenticated()`. */
  lemma OtherApiRequestsNeedAuthentication(path: string, m: Method, ctx: SecurityContext)
    requires forall k :: 0 <= k < 5 ==> !RuleMatches(RULES[k], path, m)
    ensures Decide(RULES, path, m, ctx) == (if IsAuthenticated(ctx) then Allow else Deny(Unauthenticated))
  {
    assert Matches(RULES[5].patterns[0], path);
    FirstMatchWins(RULES, path, m, ctx, 5);
  }

  /** The user endpoints, which add and delete users, need authentication only. */
  lemma UserEndpointsNeedAuthenticationOnly(path: string, m: Method, ctx: SecurityContext)
    requires StartsWith(path, "/api/users")
    ensures Decide(RULES, path, m, ctx) == (if IsAuthenticated(ctx) then Allow else Deny(Unauthenticated))
  {
    assert path[..5] == path[..10][..5];
    assert path[5] == path[..10][5];
    PublicMissesApi(path, m);
    MissesAt(Exact("/api/auth/whoami"), path, 5);
    MissesAt(Subtree("/api/books"), path, 5);
    MissesAt(Subtree("/api/transactions"), path, 5);
    assert !RuleMatches(RULES[1], path, m) && !RuleMatches(RULES[2], path, m);
    assert !RuleMatches(RULES[3], path, m) && !RuleMatches(RULES[4], path, m);
    OtherApiRequestsNeedAuthentication(path, m, ctx);
  }

  /** `@PreAuthorize("hasRole('LIBRARIAN')")` on a controller method. */
  function RequireLibrarian(ctx: SecurityContext): (d: Decision)
    ensures d == Allow <==> IsAuthenticated(ctx) && "ROLE_LIBRARIAN" in ctx.value.authorities
  {
    assert RoleAuthority("LIBRARIAN") == "ROLE_LIBRARIAN";
    Check(HasRole("LIBRARIAN"), ctx)
  }
}
