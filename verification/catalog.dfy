/** `BookServiceImpl`: existence-checked operations on the books table. */
module Catalog {
  import opened Wrappers
  import opened Tables
  import opened Text
  import opened Entities

  // `findAllBooks` is the repository's `findAll`: `Tables.All` of the books table.

  /** `findAvailableBooks`: `findAll()` filtered on status AVAILABLE. The result holds
      exactly the available books, each once, in store order. */
  function FindAvailableBooks(books: Table<Book>): (rs: seq<(Id, Book)>)
    ensures forall i :: 0 <= i < |rs| ==>
              rs[i].0 in books.rows && rs[i].1 == books.rows[rs[i].0] && rs[i].1.status == AVAILABLE
    ensures Valid(books) ==> forall id :: id in books.rows && books.rows[id].status == AVAILABLE ==>
              exists i :: 0 <= i < |rs| && rs[i].0 == id
    ensures forall i, j :: 0 <= i < j < |rs| ==> rs[i].0 < rs[j].0
  {
    RowsWhere(books, (b: Book) => b.status == AVAILABLE)
  }

  /** `findBookById`. */
  function FindBookById(books: Table<Book>, id: Id): (r: Result<Book, Failure>)
    ensures r.Ok? <==> id in books.rows
    ensures r.Ok? ==> r.value == books.rows[id]
    ensures r.Err? ==> r.error == NotFound(BookEntity, id)
  {
    match Find(books, id)
    case Some(b) => Ok(b)
    case None => Err(NotFound(BookEntity, id))
  }

  /** Some stored book already carries `isbn`. */
  predicate IsbnTaken(books: Table<Book>, isbn: string) {
    exists id :: id in books.rows && books.rows[id].isbn == isbn
  }

  /** `addBook`: `save` of a new book. The unique constraint on the isbn column rejects a
      second book with a stored isbn, and the call is rolled back. */
  function AddBook(lib: Library, book: Book): (o: Outcome<(Id, Book)>)
    ensures IsbnTaken(lib.books, book.isbn) ==> o == Outcome(lib, Err(DuplicateIsbn(book.isbn)))
    ensures o.result.Ok? <==> !IsbnTaken(lib.books, book.isbn)
    ensures o.result.Ok? ==>
              var (id, saved) := o.result.value;
              && saved == book
              && o.state.books.rows == lib.books.rows[id := book]
              && (Valid(lib.books) ==> id !in lib.books.rows)
              && o.state.users == lib.users && o.state.txns == lib.txns
  {
    if IsbnTaken(lib.books, book.isbn) then Outcome(lib, Err(DuplicateIsbn(book.isbn)))
    else
      var (books, id) := Insert(lib.books, book);
      Outcome(lib.(books := books), Ok((id, book)))
  }

  /** The transactions left once book `id` is deleted: removing a book cascades to
      its transactions. */
  function WithoutLoansOf(txns: Table<Transaction>, id: Id): (r: Table<Transaction>)
    ensures r.next == txns.next
    ensures forall t :: t in r.rows <==> t in txns.rows && txns.rows[t].book != id
    ensures forall t :: t in r.rows ==> r.rows[t] == txns.rows[t]
  {
    Table(map t | t in txns.rows && txns.rows[t].book != id :: txns.rows[t], txns.next)
  }

  /** `deleteBook`: not-found when absent; otherwise exactly that book goes, with its
      transactions, and every other book and transaction stays as it was. */
  function DeleteBook(lib: Library, id: Id): (o: Outcome<()>)
    ensures id !in lib.books.rows ==> o == Outcome(lib, Err(NotFound(BookEntity, id)))
    ensures o.result.Ok? <==> id in lib.books.rows
    ensures o.result.Ok? ==>
              && o.state.books.rows.Keys == lib.books.rows.Keys - {id}
              && (forall b :: b in o.state.books.rows ==> o.state.books.rows[b] == lib.books.rows[b])
              && o.state.users == lib.users
              && (forall t :: t in o.state.txns.rows <==> t in lib.txns.rows && lib.txns.rows[t].book != id)
              && (forall t :: t in o.state.txns.rows ==> o.state.txns.rows[t] == lib.txns.rows[t])
              && o.state.books.next == lib.books.next && o.state.txns.next == lib.txns.next
  {
    if id !in lib.books.rows then Outcome(lib, Err(NotFound(BookEntity, id)))
    else Outcome(lib.(books := Remove(lib.books, id), txns := WithoutLoansOf(lib.txns, id)), Ok(()))
  }

  /** `searchBooksByTitle`: the books whose title contains `query`, ignoring case. */
  function SearchBooksByTitle(books: Table<Book>, query: string): (rs: seq<(Id, Book)>)
    ensures forall i :: 0 <= i < |rs| ==>
              rs[i].0 in books.rows && rs[i].1 == books.rows[rs[i].0] && ContainsIgnoreCase(rs[i].1.title, query)
    ensures Valid(books) ==> forall id :: id in books.rows && ContainsIgnoreCase(books.rows[id].title, query) ==>
              exists i :: 0 <= i < |rs| && rs[i].0 == id
  {
    RowsWhere(books, (b: Book) => ContainsIgnoreCase(b.title, query))
  }

  /** `searchBooksByAuthor`: the books whose author contains `query`, ignoring case. */
  function SearchBooksByAuthor(books: Table<Book>, query: string): (rs: seq<(Id, Book)>)
    ensures forall i :: 0 <= i < |rs| ==>
              rs[i].0 in books.rows && rs[i].1 == books.rows[rs[i].0] && ContainsIgnoreCase(rs[i].1.author, query)
    ensures Valid(books) ==> forall id :: id in books.rows && ContainsIgnoreCase(books.rows[id].author, query) ==>
              exists i :: 0 <= i < |rs| && rs[i].0 == id
  {
    RowsWhere(books, (b: Book) => ContainsIgnoreCase(b.author, query))
  }

  /** Adding an AVAILABLE book keeps the lending invariant. */
  lemma AddAvailableBookKeepsConsistent(lib: Library, book: Book)
    requires Consistent(lib)
    requires book.status == AVAILABLE
    ensures Consistent(AddBook(lib, book).state)
  {
    var o := AddBook(lib, book);
    if o.result.Ok? {
      var s := o.state;
      var id := o.result.value.0;
      assert forall t, b :: OpenLoan(s, t, b) <==> OpenLoan(lib, t, b);
      forall b | b in s.books.rows
        ensures s.books.rows[b].status == BORROWED <==> exists t :: OpenLoan(s, t, b)
      {
        if b == id {
          if t :| OpenLoan(s, t, b) {
            assert false;
          }
        }
      }
    }
  }

  /** Deleting a book, with its transactions, keeps the lending invariant. */
  lemma DeleteBookKeepsConsistent(lib: Library, id: Id)
    requires Consistent(lib)
    ensures Consistent(DeleteBook(lib, id).state)
  {
    var o := DeleteBook(lib, id);
    if o.result.Ok? {
      var s := o.state;
      assert forall t, b :: OpenLoan(s, t, b) <==> b != id && OpenLoan(lib, t, b);
      forall b | b in s.books.rows
        ensures s.books.rows[b].status == BORROWED <==> exists t :: OpenLoan(s, t, b)
      {
        assert (exists t :: OpenLoan(s, t, b)) <==> exists t :: OpenLoan(lib, t, b);
      }
    }
  }

  /** "test title" occurs in "Test Title" once case is ignored. */
  lemma TestTitleMatches()
    ensures ContainsIgnoreCase("Test Title", "test title")
  {
    assert Upper("Test Title") == "TEST TITLE";
    assert Upper("test title") == "TEST TITLE";
    assert OccursAt(Upper("Test Title"), Upper("test title"), 0);
  }

  /** The book the repository test stores. */
  function TestBook(): (b: Book)
    ensures b.title == "Test Title" && b.author == "Test Author"
  {
    Book("Test Title", "Test Author", "12345", 2025, AVAILABLE)
  }

  /** The repository test's case: the query "test title" finds the book titled
      "Test Title", and that book's author is "Test Author". */
  lemma TitleSearchIgnoresCase()
    ensures var found := SearchBooksByTitle(Table(map[1 := TestBook()], 2), "test title");
            |found| > 0 && found[0].1.author == "Test Author"
  {
    var books := Table(map[1 := TestBook()], 2);
    assert Valid(books);
    TestTitleMatches();
    assert ContainsIgnoreCase(books.rows[1].title, "test title");
    var found := SearchBooksByTitle(books, "test title");
    assert exists i :: 0 <= i < |found| && found[i].0 == 1;
    assert found[0].1 == books.rows[found[0].0];
  }
}
