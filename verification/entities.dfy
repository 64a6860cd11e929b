/**
 * The persistent entities of the library: books, users and lending transactions,
 * and the three tables that hold them.
 */
module Entities {
  import opened Wrappers
  import opened Tables
  import opened Clock

  /** A book's lending state, stored by name (`EnumType.STRING`). */
  datatype BookStatus = AVAILABLE | BORROWED

  /** The column value of a status. */
  function StatusName(s: BookStatus): (n: string)
    ensures n == "AVAILABLE" || n == "BORROWED"
    ensures n == "AVAILABLE" <==> s == AVAILABLE
  {
    match s
    case AVAILABLE => "AVAILABLE"
    case BORROWED => "BORROWED"
  }

  /** Reading a status column back; a column holding any other text is not a status. */
  function StatusFromName(n: string): (r: Option<BookStatus>)
    ensures r.Some? <==> (n == "AVAILABLE" || n == "BORROWED")
    ensures r.Some? ==> StatusName(r.value) == n
  {
    if n == "AVAILABLE" then Some(AVAILABLE)
    else if n == "BORROWED" then Some(BORROWED)
    else None
  }

  /** Every status survives a write to and a read from its column. */
  lemma StatusColumnRoundTrip(s: BookStatus)
    ensures StatusFromName(StatusName(s)) == Some(s)
  {
  }

  /** A catalogued book. Title, author and isbn are non-null columns, which the
      model's non-null strings give for free; the table's id is the map key. */
  datatype Book = Book(
    title: string,
    author: string,
    isbn: string,
    publicationYear: int,
    status: BookStatus)

  /** A registered user, as far as the core reads it. */
  datatype User = User(
    name: string,
    email: string,
    membershipId: string,
    password: string,
    role: string)

  /** A loan: the "many" side of both relations. It names one book and one user by id,
      and the book holds no list of its own; `returned == None` means the loan is open. */
  datatype Transaction = Transaction(
    book: Id,
    user: Id,
    checkout: Millis,
    due: Millis,
    returned: Option<Millis>)

  /** The three tables the core reads and writes. */
  datatype Library = Library(books: Table<Book>, users: Table<User>, txns: Table<Transaction>)

  datatype Entity = BookEntity | UserEntity | TransactionEntity

  /** The exceptions the services throw. */
  datatype Failure =
    | NotFound(entity: Entity, id: Id)     // ResourceNotFoundException, 404
    | BookNotAvailable(book: Id)           // BookNotAvailableException, 409
    | AlreadyReturned(txn: Id)             // the guard the corrected return adds, 409
    | DuplicateIsbn(isbn: string)          // the unique constraint on the isbn column
    | CacheWriteFailed(book: Id)           // the cache could not serialize the book it was to store
    | UserHasLoans(user: Id)               // the foreign key of a loan refuses the user's delete

  /** The result of one `@Transactional` service call: the state after it, and what it
      returned or threw. A call that throws is rolled back. */
  datatype Outcome<T> = Outcome(state: Library, result: Result<T, Failure>)

  /** The HTTP status a failure is answered with. */
  function FailureStatus(f: Failure): (code: int)
    ensures f.NotFound? <==> code == 404
    ensures f.BookNotAvailable? || f.AlreadyReturned? ==> code == 409
  {
    match f
    case NotFound(_, _) => 404
    case BookNotAvailable(_) => 409
    case AlreadyReturned(_) => 409
    case DuplicateIsbn(_) => 500
    case CacheWriteFailed(_) => 500
    case UserHasLoans(_) => 500
  }

  /** Transaction `tid` is an open loan of book `bid`. */
  ghost predicate OpenLoan(lib: Library, tid: Id, bid: Id) {
    && tid in lib.txns.rows
    && lib.txns.rows[tid].book == bid
    && lib.txns.rows[tid].returned.None?
  }

  /** No two stored books share an isbn. */
  ghost predicate IsbnUnique(books: Table<Book>) {
    forall a, b :: a in books.rows && b in books.rows && a != b ==> books.rows[a].isbn != books.rows[b].isbn
  }

  /**
   * The invariant of the lending state machine:
   *  - every table's ids were handed out by it;
   *  - every transaction names a stored book;
   *  - isbns are unique;
   *  - a book has at most one open loan;
   *  - a book is BORROWED exactly when it has an open loan.
   */
  ghost predicate Consistent(lib: Library) {
    && Valid(lib.books) && Valid(lib.users) && Valid(lib.txns)
    && (forall tid :: tid in lib.txns.rows ==> lib.txns.rows[tid].book in lib.books.rows)
    && IsbnUnique(lib.books)
    && (forall t1, t2, bid :: OpenLoan(lib, t1, bid) && OpenLoan(lib, t2, bid) ==> t1 == t2)
    && (forall bid :: bid in lib.books.rows ==>
          (lib.books.rows[bid].status == BORROWED <==> exists tid :: OpenLoan(lib, tid, bid)))
  }
}
