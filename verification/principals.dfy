/**
 * Principals: Spring Security's `UserDetails` and `Authentication`, and
 * `DbUserDetailsService`, which resolves an email to a principal through the users table.
 */
module Principals {
  import opened Wrappers
  import opened Text
  import opened Tables
  import opened Entities

  /** `UserDetails`: username, password hash and granted authorities. */
  datatype Principal = Principal(username: string, password: string, authorities: seq<string>)

  /** An `Authentication` held by the security context. */
  datatype Authentication = Authentication(principal: Principal, authorities: seq<string>, authenticated: bool)

  /** The request's security context: `None` while no authentication is set. */
  type SecurityContext = Option<Authentication>

  /** The authority `hasRole(r)` asks for and `User.builder().roles(r)` grants. */
  function RoleAuthority(role: string): (a: string)
    ensures |a| == |role| + 5 && a[..5] == "ROLE_" && a[5..] == role
  {
    "ROLE_" + role
  }

  datatype LookupError =
    | UsernameNotFound   // UsernameNotFoundException
    | NonUniqueEmail     // a single-result query that found several rows
    | MalformedUser      // IllegalArgumentException while building the principal

  /** Some stored user has this email. */
  predicate EmailTaken(users: Table<User>, email: string) {
    exists id :: id in users.rows && users.rows[id].email == email
  }

  /** `id` is the only stored user with this email. */
  ghost predicate SoleHolder(users: Table<User>, email: string, id: Id) {
    && id in users.rows && users.rows[id].email == email
    && forall j :: j in users.rows && users.rows[j].email == email ==> j == id
  }

  /** Two different stored users have this email. */
  ghost predicate SharedEmail(users: Table<User>, email: string) {
    exists a, b :: a != b && a in users.rows && b in users.rows
                   && users.rows[a].email == email && users.rows[b].email == email
  }

  /** `UserRepository.findByEmail`: the one user with that email. A query for a null
      email finds nothing; one that finds several rows fails. */
  function FindByEmail(users: Table<User>, email: Option<string>): (r: Result<(Id, User), LookupError>)
    ensures r != Err(MalformedUser)
    ensures r.Ok? ==> email.Some? && r.value.0 in users.rows && users.rows[r.value.0] == r.value.1
                      && r.value.1.email == email.value
    ensures r == Err(NonUniqueEmail) ==> email.Some? && SharedEmail(users, email.value)
    ensures Valid(users) && email.Some? && SharedEmail(users, email.value) ==> r == Err(NonUniqueEmail)
    ensures Valid(users) ==> (r == Err(UsernameNotFound) <==> email.None? || !EmailTaken(users, email.value))
    ensures Valid(users) && email.Some? ==> forall id: Id :: SoleHolder(users, email.value, id) ==> r == Ok((id, users.rows[id]))
  {
    if email.None? then Err(UsernameNotFound)
    else
      var ids := IdsWhere(users, (u: User) => u.email == email.value);
      if |ids| == 0 then Err(UsernameNotFound)
      else if |ids| > 1 then
        AscendingDistinct(ids, 0, 1);
        Err(NonUniqueEmail)
      else
        assert forall id: Id :: SoleHolder(users, email.value, id) && Valid(users) ==> ids == [id] by {
          forall id: Id | SoleHolder(users, email.value, id) && Valid(users) ensures ids == [id] {
            AscendingSingleton(ids, id);
          }
        }
        Ok((ids[0], users.rows[ids[0]]))
  }

  /** A stored row the principal builder accepts: `SimpleGrantedAuthority` demands a role
      with text, and `User.withUsername(..).build()` a non-empty username. */
  predicate WellFormed(u: User) {
    HasText(u.role) && u.email != ""
  }

  /** The principal built for a stored user: the email as username, the stored hash as
      password, and the stored role, verbatim, as its single authority. A row the
      builder rejects raises `IllegalArgumentException`. */
  function PrincipalOf(u: User): (r: Result<Principal, LookupError>)
    ensures r.Ok? <==> WellFormed(u)
    ensures r.Ok? ==> r.value.username == u.email && r.value.password == u.password && r.value.authorities == [u.role]
    ensures r.Err? ==> r.error == MalformedUser
  {
    if !HasText(u.role) then Err(MalformedUser)
    else if u.email == "" then Err(MalformedUser)
    else Ok(Principal(u.email, u.password, [u.role]))
  }

  /** `DbUserDetailsService.loadUserByUsername`, which treats the username as an email. */
  function LoadUserByUsername(users: Table<User>, username: Option<string>): (r: Result<Principal, LookupError>)
    ensures r.Ok? ==> username.Some? && r.value.username == username.value && |r.value.authorities| == 1
    ensures r.Ok? ==> exists id :: id in users.rows && users.rows[id].email == username.value
                                   && PrincipalOf(users.rows[id]) == Ok(r.value)
    ensures r == Err(MalformedUser) ==>
              && username.Some?
              && exists id :: id in users.rows && users.rows[id].email == username.value && !WellFormed(users.rows[id])
    ensures Valid(users) ==> (r == Err(UsernameNotFound) <==> username.None? || !EmailTaken(users, username.value))
    ensures Valid(users) && username.Some? && SharedEmail(users, username.value) ==> r == Err(NonUniqueEmail)
    ensures Valid(users) && username.Some? ==>
              forall id: Id :: SoleHolder(users, username.value, id) ==> r == PrincipalOf(users.rows[id])
  {
    match FindByEmail(users, username)
    case Ok((_, u)) => PrincipalOf(u)
    case Err(e) => Err(e)
  }
}
