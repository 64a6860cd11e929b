/**
 * The lending state machine of `TransactionServiceImpl`: `borrowBook` and
 * `returnBook`, each one atomic step on the library's tables.
 */
module Lending {
  import opened Wrappers
  import opened Tables
  import opened Clock
  import opened Entities

  /** The loan period: `plusWeeks(2)`. */
  const LOAN_WEEKS: nat := 2

  /** A transaction together with the id its table gave it. */
  datatype Loan = Loan(id: Id, txn: Transaction)

  /**
   * `borrowBook(bookId, userId)`. The source reads the clock twice: once for the
   * checkout date (`checkoutAt`) and once more for the base of the due date (`dueFrom`).
   * The book is looked up before the user, and both before the status test.
   */
  function BorrowBook(lib: Library, bookId: Id, userId: Id, checkoutAt: Millis, dueFrom: Millis): (o: Outcome<Loan>)
    ensures bookId !in lib.books.rows ==> o == Outcome(lib, Err(NotFound(BookEntity, bookId)))
    ensures bookId in lib.books.rows && userId !in lib.users.rows ==> o == Outcome(lib, Err(NotFound(UserEntity, userId)))
    ensures bookId in lib.books.rows && userId in lib.users.rows && lib.books.rows[bookId].status != AVAILABLE ==>
              o == Outcome(lib, Err(BookNotAvailable(bookId)))
    ensures o.result.Ok? <==>
              bookId in lib.books.rows && userId in lib.users.rows && lib.books.rows[bookId].status == AVAILABLE
    ensures o.result.Ok? ==>
              var loan := o.result.value;
              && loan.txn == Transaction(bookId, userId, checkoutAt, PlusWeeks(dueFrom, LOAN_WEEKS), None)
              && o.state.books.rows == lib.books.rows[bookId := lib.books.rows[bookId].(status := BORROWED)]
              && o.state.books.next == lib.books.next
              && o.state.users == lib.users
              && o.state.txns.rows == lib.txns.rows[loan.id := loan.txn]
              && (Valid(lib.txns) ==> loan.id !in lib.txns.rows && Valid(o.state.txns))
  {
    match Find(lib.books, bookId)
    case None => Outcome(lib, Err(NotFound(BookEntity, bookId)))
    case Some(book) =>
      match Find(lib.users, userId)
      case None => Outcome(lib, Err(NotFound(UserEntity, userId)))
      case Some(_) =>
        if book.status != AVAILABLE then Outcome(lib, Err(BookNotAvailable(bookId)))
        else
          var books := Store(lib.books, bookId, book.(status := BORROWED));
          var txn := Transaction(bookId, userId, checkoutAt, PlusWeeks(dueFrom, LOAN_WEEKS), None);
          var (txns, id) := Insert(lib.txns, txn);
          Outcome(lib.(books := books, txns := txns), Ok(Loan(id, txn)))
  }

  /**
   * `returnBook(transactionId)` as written: the referenced book becomes AVAILABLE and
   * the return date is stamped with `now`, whether or not the loan was already
   * returned. Loading a book the transaction names but the table no longer holds fails.
   */
  function ReturnBook(lib: Library, tid: Id, now: Millis): (o: Outcome<Loan>)
    ensures tid !in lib.txns.rows ==> o == Outcome(lib, Err(NotFound(TransactionEntity, tid)))
    ensures tid in lib.txns.rows && lib.txns.rows[tid].book !in lib.books.rows ==>
              o == Outcome(lib, Err(NotFound(BookEntity, lib.txns.rows[tid].book)))
    ensures o.result.Ok? <==> tid in lib.txns.rows && lib.txns.rows[tid].book in lib.books.rows
    ensures o.result.Ok? ==>
              var old_ := lib.txns.rows[tid];
              var bid := old_.book;
              && o.result.value == Loan(tid, old_.(returned := Some(now)))
              && o.state.books.rows == lib.books.rows[bid := lib.books.rows[bid].(status := AVAILABLE)]
              && o.state.books.next == lib.books.next
              && o.state.users == lib.users
              && o.state.txns.rows == lib.txns.rows[tid := old_.(returned := Some(now))]
              && o.state.txns.next == lib.txns.next
  {
    match Find(lib.txns, tid)
    case None => Outcome(lib, Err(NotFound(TransactionEntity, tid)))
    case Some(txn) =>
      match Find(lib.books, txn.book)
      case None => Outcome(lib, Err(NotFound(BookEntity, txn.book)))
      case Some(book) =>
        var books := Store(lib.books, txn.book, book.(status := AVAILABLE));
        var closed := txn.(returned := Some(now));
        Outcome(lib.(books := books, txns := Store(lib.txns, tid, closed)), Ok(Loan(tid, closed)))
  }

  /**
   * `returnBook` with the guard the source lacks: a loan that is already returned is
   * rejected and nothing changes; an open loan is returned as above.
   */
  function ReturnBookChecked(lib: Library, tid: Id, now: Millis): (o: Outcome<Loan>)
    ensures tid in lib.txns.rows && lib.txns.rows[tid].returned.Some? ==>
              o == Outcome(lib, Err(AlreadyReturned(tid)))
    ensures tid in lib.txns.rows && lib.txns.rows[tid].returned.None? ==> o == ReturnBook(lib, tid, now)
    ensures tid !in lib.txns.rows ==> o == Outcome(lib, Err(NotFound(TransactionEntity, tid)))
  {
    match Find(lib.txns, tid)
    case Some(txn) =>
      if txn.returned.Some? then Outcome(lib, Err(AlreadyReturned(tid))) else ReturnBook(lib, tid, now)
    case None => ReturnBook(lib, tid, now)
  }

  /** The due date lies two weeks after the second clock reading; when both readings
      agree, that is exactly fourteen days after checkout. */
  lemma DueIsTwoWeeksAfterCheckout(lib: Library, bookId: Id, userId: Id, checkoutAt: Millis, dueFrom: Millis)
    requires BorrowBook(lib, bookId, userId, checkoutAt, dueFrom).result.Ok?
    ensures var t := BorrowBook(lib, bookId, userId, checkoutAt, dueFrom).result.value.txn;
            t.due - t.checkout == 14 * MILLIS_PER_DAY + (dueFrom - checkoutAt)
  {
  }

  /** Open loans after a successful borrow: the new one, and the old ones. */
  lemma OpenLoansAfterBorrow(lib: Library, bookId: Id, userId: Id, checkoutAt: Millis, dueFrom: Millis, tid: Id, bid: Id)
    requires Valid(lib.txns)
    requires BorrowBook(lib, bookId, userId, checkoutAt, dueFrom).result.Ok?
    ensures var o := BorrowBook(lib, bookId, userId, checkoutAt, dueFrom);
            OpenLoan(o.state, tid, bid) <==>
              (tid == o.result.value.id && bid == bookId) || OpenLoan(lib, tid, bid)
  {
  }

  /** Borrowing keeps the invariant. */
  lemma BorrowKeepsConsistent(lib: Library, bookId: Id, userId: Id, checkoutAt: Millis, dueFrom: Millis)
    requires Consistent(lib)
    ensures Consistent(BorrowBook(lib, bookId, userId, checkoutAt, dueFrom).state)
  {
    var o := BorrowBook(lib, bookId, userId, checkoutAt, dueFrom);
    if o.result.Ok? {
      var s := o.state;
      var n := o.result.value.id;
      forall tid, bid
        ensures OpenLoan(s, tid, bid) <==> (tid == n && bid == bookId) || OpenLoan(lib, tid, bid)
      {
        OpenLoansAfterBorrow(lib, bookId, userId, checkoutAt, dueFrom, tid, bid);
      }
      assert !exists tid :: OpenLoan(lib, tid, bookId);
      forall bid | bid in s.books.rows
        ensures s.books.rows[bid].status == BORROWED <==> exists tid :: OpenLoan(s, tid, bid)
      {
        if bid == bookId {
          assert OpenLoan(s, n, bid);
        } else {
          assert (exists tid :: OpenLoan(s, tid, bid)) <==> exists tid :: OpenLoan(lib, tid, bid);
        }
      }
      assert IsbnUnique(s.books) by {
        assert forall b :: b in s.books.rows ==> s.books.rows[b].isbn == lib.books.rows[b].isbn;
      }
    }
  }

  /** Returning an open loan keeps the invariant. */
  lemma ReturnOpenLoanKeepsConsistent(lib: Library, tid: Id, now: Millis)
    requires Consistent(lib)
    requires tid in lib.txns.rows && lib.txns.rows[tid].returned.None?
    ensures Consistent(ReturnBook(lib, tid, now).state)
  {
    var o := ReturnBook(lib, tid, now);
    var s := o.state;
    var b := lib.txns.rows[tid].book;
    assert o.result.Ok?;
    forall t, bid
      ensures OpenLoan(s, t, bid) <==> t != tid && OpenLoan(lib, t, bid)
    {
    }
    assert OpenLoan(lib, tid, b);
    forall bid | bid in s.books.rows
      ensures s.books.rows[bid].status == BORROWED <==> exists t :: OpenLoan(s, t, bid)
    {
      if bid == b {
        if t :| OpenLoan(s, t, bid) {
          assert false;
        }
      } else {
        assert (exists t :: OpenLoan(s, t, bid)) <==> exists t :: OpenLoan(lib, t, bid);
      }
    }
    assert IsbnUnique(s.books) by {
      assert forall x :: x in s.books.rows ==> s.books.rows[x].isbn == lib.books.rows[x].isbn;
    }
  }

  /** The corrected return keeps the invariant for every transaction id. */
  lemma ReturnCheckedKeepsConsistent(lib: Library, tid: Id, now: Millis)
    requires Consistent(lib)
    ensures Consistent(ReturnBookChecked(lib, tid, now).state)
  {
    if tid in lib.txns.rows && lib.txns.rows[tid].returned.None? {
      ReturnOpenLoanKeepsConsistent(lib, tid, now);
    }
  }

  /** In a consistent library a return fails only for an unknown transaction. */
  lemma ReturnFailsOnlyWhenUnknown(lib: Library, tid: Id, now: Millis)
    requires Consistent(lib)
    ensures ReturnBook(lib, tid, now).result.Err? <==> tid !in lib.txns.rows
  {
  }

  /** Borrow, then return the created transaction: the books table is back where it was,
      and that transaction carries the return date. */
  lemma BorrowThenReturn(lib: Library, bookId: Id, userId: Id, checkoutAt: Millis, dueFrom: Millis, now: Millis)
    requires Valid(lib.txns)
    requires BorrowBook(lib, bookId, userId, checkoutAt, dueFrom).result.Ok?
    ensures var b := BorrowBook(lib, bookId, userId, checkoutAt, dueFrom);
            var r := ReturnBook(b.state, b.result.value.id, now);
            && r.result.Ok?
            && r.state.books == lib.books
            && r.state.books.rows[bookId].status == AVAILABLE
            && r.state.txns.rows[b.result.value.id].returned == Some(now)
            && r.state.txns.rows[b.result.value.id].checkout == checkoutAt
  {
  }

  /** Once a borrow succeeds, every further borrow of that book fails until it is returned:
      with not-found for an unknown user, and as unavailable otherwise. */
  lemma SecondBorrowFails(lib: Library, bookId: Id, userId: Id, checkoutAt: Millis, dueFrom: Millis,
                          otherUser: Id, checkoutAt2: Millis, dueFrom2: Millis)
    requires BorrowBook(lib, bookId, userId, checkoutAt, dueFrom).result.Ok?
    ensures var s := BorrowBook(lib, bookId, userId, checkoutAt, dueFrom).state;
            var again := BorrowBook(s, bookId, otherUser, checkoutAt2, dueFrom2);
            && again.state == s
            && again.result == (if otherUser in lib.users.rows then Err(BookNotAvailable(bookId))
                                else Err(NotFound(UserEntity, otherUser)))
  {
  }

  /** The library of the double-return scenario: one available book, one user. */
  function OneBookOneUser(): (lib: Library)
    ensures Consistent(lib)
  {
    var book := Book("Dune", "Frank Herbert", "9780441013593", 1965, AVAILABLE);
    var user := User("Ada", "ada@example.org", "M-1", "{bcrypt}", "ROLE_MEMBER");
    Library(Table(map[0 := book], 1), Table(map[0 := user], 1), Table(map[], 0))
  }

  /**
   * The unguarded return breaks the invariant: borrow the book (transaction 0), return
   * it, borrow it again (transaction 1), then return transaction 0 a second time. The
   * book is AVAILABLE again while transaction 1 is still an open loan of it.
   */
  lemma DoubleReturnReleasesBorrowedBook()
    ensures var s0 := OneBookOneUser();
            var s1 := BorrowBook(s0, 0, 0, 10, 10).state;
            var s2 := ReturnBook(s1, 0, 20).state;
            var s3 := BorrowBook(s2, 0, 0, 30, 30).state;
            var s4 := ReturnBook(s3, 0, 40).state;
            && Consistent(s3)
            && OpenLoan(s4, 1, 0)
            && s4.books.rows[0].status == AVAILABLE
            && !Consistent(s4)
  {
    var s0 := OneBookOneUser();
    BorrowKeepsConsistent(s0, 0, 0, 10, 10);
    var s1 := BorrowBook(s0, 0, 0, 10, 10).state;
    assert s1.txns.rows[0].returned.None?;
    ReturnOpenLoanKeepsConsistent(s1, 0, 20);
    var s2 := ReturnBook(s1, 0, 20).state;
    BorrowKeepsConsistent(s2, 0, 0, 30, 30);
    var s3 := BorrowBook(s2, 0, 0, 30, 30).state;
    var s4 := ReturnBook(s3, 0, 40).state;
    assert OpenLoan(s4, 1, 0);
  }

  /** The corrected return rejects that second return and changes nothing. */
  lemma DoubleReturnRejected()
    ensures var s0 := OneBookOneUser();
            var s1 := BorrowBook(s0, 0, 0, 10, 10).state;
            var s2 := ReturnBookChecked(s1, 0, 20).state;
            var s3 := BorrowBook(s2, 0, 0, 30, 30).state;
            var o := ReturnBookChecked(s3, 0, 40);
            && o == Outcome(s3, Err(AlreadyReturned(0)))
            && s3.books.rows[0].status == BORROWED
  {
  }
}
