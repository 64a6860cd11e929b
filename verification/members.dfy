/** `UserServiceImpl`: existence-checked operations on the users table. */
module Members {
  import opened Wrappers
  import opened Tables
  import opened Entities

  /**
   * `addUser`: `save` of the request body exactly as given. JPA persists a body
   * without an id under a fresh one, and merges a body carrying an id: over the stored
   * row with that id, whose every field it replaces, or, when no row has it, as a new
   * row under a fresh id.
   */
  function AddUser(lib: Library, user: User, given: Option<Id>): (o: Outcome<(Id, User)>)
    ensures o.result.Ok?
    ensures var (id, saved) := o.result.value;
            && saved == user
            && o.state.users.rows == lib.users.rows[id := user]
            && (Valid(lib.users) ==> Valid(o.state.users))
            && o.state.books == lib.books && o.state.txns == lib.txns
    ensures given.Some? && given.value in lib.users.rows ==>
              o.result.value.0 == given.value && o.state.users.next == lib.users.next
    ensures Valid(lib.users) && !(given.Some? && given.value in lib.users.rows) ==>
              o.result.value.0 !in lib.users.rows
  {
    if given.Some? && given.value in lib.users.rows then
      Outcome(lib.(users := Store(lib.users, given.value, user)), Ok((given.value, user)))
    else
      var (users, id) := Insert(lib.users, user);
      Outcome(lib.(users := users), Ok((id, user)))
  }

  /** `findUserById`. */
  function FindUserById(users: Table<User>, id: Id): (r: Result<User, Failure>)
    ensures r.Ok? <==> id in users.rows
    ensures r.Ok? ==> r.value == users.rows[id]
    ensures r.Err? ==> r.error == NotFound(UserEntity, id)
  {
    match Find(users, id)
    case Some(u) => Ok(u)
    case None => Err(NotFound(UserEntity, id))
  }

  // `findAllUsers` is the repository's `findAll`: `Tables.All` of the users table.

  /**
   * What deleting a user does to the loans that name it. User.java is not part of this
   * model, so both readings of its loan collection are kept: with no cascade, the
   * non-null `user_id` foreign key of Transaction.java refuses the delete of a user any
   * loan names; with a cascade, as Book.java declares for books, those loans go too.
   */
  datatype UserLoans = Restrict | Cascade

  /** Some transaction, open or returned, names user `id`. */
  predicate HasLoans(txns: Table<Transaction>, id: Id) {
    exists t :: t in txns.rows && txns.rows[t].user == id
  }

  /** The transactions left once user `id` and its loans are deleted. */
  function LoansNotBy(txns: Table<Transaction>, id: Id): (r: Table<Transaction>)
    ensures r.next == txns.next
    ensures forall t :: t in r.rows <==> t in txns.rows && txns.rows[t].user != id
    ensures forall t :: t in r.rows ==> r.rows[t] == txns.rows[t]
    ensures !HasLoans(r, id)
  {
    Table(map t | t in txns.rows && txns.rows[t].user != id :: txns.rows[t], txns.next)
  }

  /**
   * `deleteUser`: looks the user up first, so an unknown id is not-found and changes
   * nothing. Under `Restrict` a user some loan names cannot be deleted: the foreign key
   * violation escapes as a server error and the call is rolled back. Otherwise exactly
   * that user goes, together with its loans under `Cascade`; books never change.
   */
  function DeleteUser(lib: Library, id: Id, loans: UserLoans): (o: Outcome<()>)
    ensures id !in lib.users.rows ==> o == Outcome(lib, Err(NotFound(UserEntity, id)))
    ensures loans == Restrict && id in lib.users.rows && HasLoans(lib.txns, id) ==>
              o == Outcome(lib, Err(UserHasLoans(id)))
    ensures o.result.Ok? <==> id in lib.users.rows && (loans == Cascade || !HasLoans(lib.txns, id))
    ensures o.result.Ok? ==>
              && o.state.users.rows.Keys == lib.users.rows.Keys - {id}
              && (forall u :: u in o.state.users.rows ==> o.state.users.rows[u] == lib.users.rows[u])
              && o.state.users.next == lib.users.next
              && o.state.books == lib.books
              && o.state.txns.next == lib.txns.next
              && (forall t :: t in o.state.txns.rows <==> t in lib.txns.rows && lib.txns.rows[t].user != id)
              && (forall t :: t in o.state.txns.rows ==> o.state.txns.rows[t] == lib.txns.rows[t])
              && !HasLoans(o.state.txns, id)
    ensures o.result.Ok? && loans == Restrict ==> o.state.txns == lib.txns
  {
    match FindUserById(lib.users, id)
    case Err(e) => Outcome(lib, Err(e))
    case Ok(_) =>
      if HasLoans(lib.txns, id) then
        match loans
        case Restrict => Outcome(lib, Err(UserHasLoans(id)))
        case Cascade => Outcome(lib.(users := Remove(lib.users, id), txns := LoansNotBy(lib.txns, id)), Ok(()))
      else Outcome(lib.(users := Remove(lib.users, id)), Ok(()))
  }

  /** Adding or overwriting a user keeps the lending invariant. */
  lemma AddUserKeepsConsistent(lib: Library, user: User, given: Option<Id>)
    requires Consistent(lib)
    ensures Consistent(AddUser(lib, user, given).state)
  {
    var s := AddUser(lib, user, given).state;
    assert forall t, b :: OpenLoan(s, t, b) <==> OpenLoan(lib, t, b);
  }

  /** Deleting a user whose delete the foreign key allows keeps the lending invariant:
      such a user has no loans, so every loan stays as it was. */
  lemma DeleteUserKeepsConsistent(lib: Library, id: Id)
    requires Consistent(lib)
    ensures Consistent(DeleteUser(lib, id, Restrict).state)
  {
    var s := DeleteUser(lib, id, Restrict).state;
    assert forall t, b :: OpenLoan(s, t, b) <==> OpenLoan(lib, t, b);
  }

  /** Under `Cascade`, deleting a user who holds an open loan removes the loan and
      leaves its book BORROWED with no open loan: the invariant breaks. */
  lemma CascadeDeleteStrandsBook(lib: Library, id: Id, tid: Id)
    requires Consistent(lib)
    requires id in lib.users.rows
    requires tid in lib.txns.rows && lib.txns.rows[tid].user == id && lib.txns.rows[tid].returned.None?
    ensures DeleteUser(lib, id, Cascade).result.Ok?
    ensures !Consistent(DeleteUser(lib, id, Cascade).state)
  {
    var s := DeleteUser(lib, id, Cascade).state;
    var bid := lib.txns.rows[tid].book;
    assert OpenLoan(lib, tid, bid);
    assert bid in s.books.rows && s.books.rows[bid].status == BORROWED;
    forall t | t in s.txns.rows
      ensures !OpenLoan(s, t, bid)
    {
      assert s.txns.rows[t] == lib.txns.rows[t] && lib.txns.rows[t].user != id;
      assert t != tid;
      assert !OpenLoan(lib, t, bid);
    }
  }
}
