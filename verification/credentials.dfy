/**
 * The `AuthenticationManager` of `SecurityConfig`: a `ProviderManager` that asks a
 * DAO provider over the database users first and a DAO provider over two in-memory
 * users second. Password hashing is a parameter pair: `encode` is the configured
 * `PasswordEncoder.encode` and `matches` its `matches`.
 */
module Credentials {
  import opened Wrappers
  import opened Tables
  import opened Entities
  import opened Principals

  type Encoder = string -> string
  type Matcher = (string, string) -> bool

  /** A raw password always matches its own encoding. */
  ghost predicate EncoderSound(encode: Encoder, matches: Matcher) {
    forall raw :: matches(raw, encode(raw))
  }

  /** The password both in-memory users share. */
  const DEMO_PASSWORD: string := "password123"

  /** `inMemoryUserDetailsManager`: "librarian" with role LIBRARIAN and "member" with role
      MEMBER, each with the encoded demo password. */
  function InMemoryUsers(encode: Encoder): (us: seq<Principal>)
    ensures |us| == 2
    ensures us[0].username == "librarian" && us[0].authorities == ["ROLE_LIBRARIAN"]
    ensures us[1].username == "member" && us[1].authorities == ["ROLE_MEMBER"]
    ensures forall i :: 0 <= i < |us| ==> us[i].password == encode(DEMO_PASSWORD)
  {
    assert RoleAuthority("LIBRARIAN") == "ROLE_LIBRARIAN";
    assert RoleAuthority("MEMBER") == "ROLE_MEMBER";
    [ Principal("librarian", encode(DEMO_PASSWORD), [RoleAuthority("LIBRARIAN")]),
      Principal("member", encode(DEMO_PASSWORD), [RoleAuthority("MEMBER")]) ]
  }

  /** The in-memory manager's `loadUserByUsername`: the first user of that name. */
  function FindInMemory(us: seq<Principal>, username: string): (r: Option<Principal>)
    ensures r.Some? ==> r.value in us && r.value.username == username
    ensures r.None? <==> forall i :: 0 <= i < |us| ==> us[i].username != username
    decreases |us|
  {
    if us == [] then None
    else if us[0].username == username then Some(us[0])
    else FindInMemory(us[1..], username)
  }

  datatype AuthError =
    | BadCredentials   // every provider failed: unknown user or wrong password
    | InternalError    // the user lookup itself failed; the manager stops at once

  /** One DAO provider's verdict on a loaded user: the user when the password matches,
      `BadCredentials` otherwise. */
  function CheckPassword(p: Principal, raw: string, matches: Matcher): (r: Result<Principal, AuthError>)
    ensures r.Ok? <==> matches(raw, p.password)
    ensures r.Ok? ==> r.value == p
    ensures r.Err? ==> r.error == BadCredentials
  {
    if matches(raw, p.password) then Ok(p) else Err(BadCredentials)
  }

  /** The verdict of the in-memory provider, which the manager asks when the database
      provider refuses with bad credentials. */
  function InMemoryVerdict(memory: seq<Principal>, username: string, raw: string, matches: Matcher): (r: Result<Principal, AuthError>)
    ensures r.Ok? <==> FindInMemory(memory, username).Some? && matches(raw, FindInMemory(memory, username).value.password)
    ensures r.Ok? ==> r.value == FindInMemory(memory, username).value
    ensures r.Err? ==> r.error == BadCredentials
  {
    match FindInMemory(memory, username)
    case None => Err(BadCredentials)
    case Some(p) => CheckPassword(p, raw, matches)
  }

  /** A lookup failure the DAO provider does not turn into bad credentials: it wraps it
      in `InternalAuthenticationServiceException`, which stops the manager. */
  predicate Fatal(db: Result<Principal, LookupError>) {
    db.Err? && db.error != UsernameNotFound
  }

  /**
   * `ProviderManager.authenticate` over the two providers. The database provider runs
   * first: a matching password there wins. An unknown email or a wrong password
   * there (both `BadCredentialsException`) passes the request on to the in-memory
   * provider. A lookup that fails in any other way (several users with that email, or
   * a row the principal builder rejects) ends authentication with an internal error.
   */
  function Authenticate(users: Table<User>, memory: seq<Principal>, username: string, raw: string,
                        matches: Matcher): (r: Result<Principal, AuthError>)
    ensures r.Ok? ==>
              && matches(raw, r.value.password) && r.value.username == username
              && ((LoadUserByUsername(users, Some(username)).Ok? && r.value == LoadUserByUsername(users, Some(username)).value)
                  || FindInMemory(memory, username) == Some(r.value))
    ensures Fatal(LoadUserByUsername(users, Some(username))) <==> r == Err(InternalError)
    ensures var db := LoadUserByUsername(users, Some(username));
            db.Ok? && matches(raw, db.value.password) ==> r == Ok(db.value)
    ensures var db := LoadUserByUsername(users, Some(username));
            (db == Err(UsernameNotFound) || (db.Ok? && !matches(raw, db.value.password))) ==>
              r == InMemoryVerdict(memory, username, raw, matches)
  {
    var db := LoadUserByUsername(users, Some(username));
    if Fatal(db) then Err(InternalError)
    else if db.Ok? && CheckPassword(db.value, raw, matches).Ok? then Ok(db.value)
    else InMemoryVerdict(memory, username, raw, matches)
  }

  /** The in-memory users log in with the demo password whenever no database user has
      their name as email. */
  lemma DemoUsersLogIn(users: Table<User>, encode: Encoder, matches: Matcher, i: nat)
    requires EncoderSound(encode, matches) && Valid(users) && i < 2
    requires !EmailTaken(users, InMemoryUsers(encode)[i].username)
    ensures Authenticate(users, InMemoryUsers(encode), InMemoryUsers(encode)[i].username, DEMO_PASSWORD, matches)
            == Ok(InMemoryUsers(encode)[i])
  {
  }

  /** A well-formed database user with a unique email logs in with the password that
      was encoded into its row. */
  lemma StoredUserLogsIn(users: Table<User>, memory: seq<Principal>, id: Id, raw: string,
                         encode: Encoder, matches: Matcher)
    requires EncoderSound(encode, matches) && Valid(users) && id in users.rows
    requires SoleHolder(users, users.rows[id].email, id) && users.rows[id].password == encode(raw)
    requires WellFormed(users.rows[id])
    ensures Authenticate(users, memory, users.rows[id].email, raw, matches) == Ok(PrincipalOf(users.rows[id]).value)
  {
  }
}
