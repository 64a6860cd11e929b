/**
 * `BookController` under `/api/books`: the request and response shapes, and the
 * endpoints that create, read, list and delete books. `@PreAuthorize` on create and
 * delete is checked against the request's security context before the body runs.
 */
module BookApi {
  import opened Wrappers
  import opened Clock
  import opened Tables
  import opened Entities
  import opened Principals
  import opened Policy
  import opened BookCache
  import Catalog

  /** `BookRequest`: what a client may set. The status is not among it. */
  datatype BookRequest = BookRequest(title: string, author: string, isbn: string, publicationYear: int)

  /** `BookResponse`: the stored book with its id. */
  datatype BookResponse = BookResponse(id: Id, title: string, author: string, isbn: string,
                                       publicationYear: int, status: BookStatus)

  /** `toResponse`: every field of the stored book, and its id, copied unchanged. */
  function ToResponse(id: Id, b: Book): (r: BookResponse)
    ensures r.id == id
    ensures Book(r.title, r.author, r.isbn, r.publicationYear, r.status) == b
  {
    BookResponse(id, b.title, b.author, b.isbn, b.publicationYear, b.status)
  }

  /** Two stored rows give the same response only when they are the same row. */
  lemma ToResponseInjective(id1: Id, b1: Book, id2: Id, b2: Book)
    ensures ToResponse(id1, b1) == ToResponse(id2, b2) <==> id1 == id2 && b1 == b2
  {
  }

  function ToResponses(rs: seq<(Id, Book)>): (out: seq<BookResponse>)
    ensures |out| == |rs|
    ensures forall i :: 0 <= i < |rs| ==> out[i] == ToResponse(rs[i].0, rs[i].1)
  {
    seq(|rs|, i requires 0 <= i < |rs| => ToResponse(rs[i].0, rs[i].1))
  }

  /** What a book endpoint answers. */
  datatype BookReply =
    | BookCreated(body: BookResponse)     // 201
    | BookBody(body: BookResponse)        // 200
    | BookList(items: seq<BookResponse>)  // 200
    | NoContent                           // 204
    | Denied(why: Denial)                 // `@PreAuthorize` refused the caller
    | Failed(failure: Failure)            // the service threw

  /** The book a create request stores: the request's fields, status AVAILABLE. */
  function NewBook(req: BookRequest): (b: Book)
    ensures b.status == AVAILABLE
    ensures b.title == req.title && b.author == req.author && b.isbn == req.isbn
            && b.publicationYear == req.publicationYear
  {
    Book(req.title, req.author, req.isbn, req.publicationYear, AVAILABLE)
  }

  /**
   * `addBook`, POST: only a caller holding ROLE_LIBRARIAN reaches the service. The new
   * book is always AVAILABLE, and the answer is the saved row.
   */
  function AddBook(ctx: SecurityContext, lib: Library, req: BookRequest): (r: (Library, BookReply))
    ensures RequireLibrarian(ctx) != Allow ==> r == (lib, Denied(RequireLibrarian(ctx).why))
    ensures r.1.BookCreated? <==> RequireLibrarian(ctx) == Allow && !Catalog.IsbnTaken(lib.books, req.isbn)
    ensures !r.1.BookCreated? ==> r.0 == lib
    ensures r.1.BookCreated? ==>
              && r.1.body.id in r.0.books.rows && (Valid(lib.books) ==> r.1.body.id !in lib.books.rows)
              && r.1.body == ToResponse(r.1.body.id, NewBook(req))
              && r.0.books.rows == lib.books.rows[r.1.body.id := NewBook(req)]
              && r.0.users == lib.users && r.0.txns == lib.txns
  {
    match RequireLibrarian(ctx)
    case Deny(why) => (lib, Denied(why))
    case Allow =>
      var o := Catalog.AddBook(lib, NewBook(req));
      match o.result
      case Err(f) => (o.state, Failed(f))
      case Ok((id, saved)) => (o.state, BookCreated(ToResponse(id, saved)))
  }

  /** `getBookById`, GET: the service's cached read. With caching disabled, or a book
      the cache can store and a coherent cache, that is the stored row or not-found.
      Under JDK serialization a stored book that is not cached fails at the cache write. */
  function GetBookById(mode: CacheMode, cache: Cache, books: Table<Book>, id: Id, now: Millis, ttl: Millis)
    : (r: (Cache, BookReply))
    ensures Hit(mode, cache, id, now, ttl) ==> r == (cache, BookBody(ToResponse(id, cache[id].book)))
    ensures r.1.BookBody? || r.0 == cache
    ensures mode != JdkSerialized && Coherent(cache, books) ==>
              && (r.1.BookBody? <==> id in books.rows)
              && (r.1.BookBody? ==> r.1.body == ToResponse(id, books.rows[id]))
              && (!r.1.BookBody? ==> r.1 == Failed(NotFound(BookEntity, id)))
              && Coherent(r.0, books)
    ensures mode == JdkSerialized && !Hit(mode, cache, id, now, ttl) ==>
              r.1 == Failed(if id in books.rows then CacheWriteFailed(id) else NotFound(BookEntity, id))
  {
    match BookCache.FindBookById(mode, cache, books, id, now, ttl)
    case (c, Ok(b)) => (c, BookBody(ToResponse(id, b)))
    case (c, Err(f)) => (c, Failed(f))
  }

  /** `getAvailableBooks`, GET: exactly the AVAILABLE books, each once, in store order. */
  function GetAvailableBooks(books: Table<Book>): (r: seq<BookResponse>)
    ensures forall i :: 0 <= i < |r| ==>
              r[i].status == AVAILABLE && r[i].id in books.rows && r[i] == ToResponse(r[i].id, books.rows[r[i].id])
    ensures Valid(books) ==> forall id :: id in books.rows && books.rows[id].status == AVAILABLE ==>
              exists i :: 0 <= i < |r| && r[i].id == id
    ensures forall i, j :: 0 <= i < j < |r| ==> r[i].id < r[j].id
  {
    var rs := Catalog.FindAvailableBooks(books);
    var out := ToResponses(rs);
    assert forall id :: id in books.rows && books.rows[id].status == AVAILABLE && Valid(books) ==>
             exists i :: 0 <= i < |out| && out[i].id == id by {
      forall id | id in books.rows && books.rows[id].status == AVAILABLE && Valid(books)
        ensures exists i :: 0 <= i < |out| && out[i].id == id
      {
        var i :| 0 <= i < |rs| && rs[i].0 == id;
        assert out[i].id == id;
      }
    }
    out
  }

  /** `deleteBook`, DELETE: only a caller holding ROLE_LIBRARIAN reaches the service;
      then 204 with the book's cache entry evicted, or not-found. */
  function DeleteBook(ctx: SecurityContext, cache: Cache, lib: Library, id: Id): (r: (Cache, Library, BookReply))
    ensures RequireLibrarian(ctx) != Allow ==> r == (cache, lib, Denied(RequireLibrarian(ctx).why))
    ensures r.2 == NoContent <==> RequireLibrarian(ctx) == Allow && id in lib.books.rows
    ensures r.2 == NoContent ==>
              && (r.0, Outcome(r.1, Ok(()))) == BookCache.DeleteBook(cache, lib, id)
              && id !in r.1.books.rows && id !in r.0
    ensures r.2 != NoContent ==> r.0 == cache && r.1 == lib
  {
    match RequireLibrarian(ctx)
    case Deny(why) => (cache, lib, Denied(why))
    case Allow =>
      var (c, o) := BookCache.DeleteBook(cache, lib, id);
      match o.result
      case Err(f) => (c, o.state, Failed(f))
      case Ok(_) => (c, o.state, NoContent)
  }

  /** A book created through the endpoint is listed among the available books
      afterwards. */
  lemma CreatedBookIsAvailable(ctx: SecurityContext, lib: Library, req: BookRequest)
    requires Valid(lib.books)
    requires AddBook(ctx, lib, req).1.BookCreated?
    ensures var (s, r) := AddBook(ctx, lib, req);
            exists i :: 0 <= i < |GetAvailableBooks(s.books)| && GetAvailableBooks(s.books)[i] == r.body
  {
    var (s, r) := AddBook(ctx, lib, req);
    var o := Catalog.AddBook(lib, NewBook(req));
    assert s == o.state;
    assert Valid(s.books) by {
      assert s.books == Insert(lib.books, NewBook(req)).0;
    }
    var avail := GetAvailableBooks(s.books);
    var i :| 0 <= i < |avail| && avail[i].id == r.body.id;
    assert avail[i] == r.body;
  }

  /** Creating a book through the endpoint keeps the lending invariant. */
  lemma AddBookKeepsConsistent(ctx: SecurityContext, lib: Library, req: BookRequest)
    requires Consistent(lib)
    ensures Consistent(AddBook(ctx, lib, req).0)
  {
    if RequireLibrarian(ctx) == Allow {
      Catalog.AddAvailableBookKeepsConsistent(lib, NewBook(req));
    }
  }

  /** Deleting a book through the endpoint keeps the lending invariant, and keeps the
      cache coherent with the table. */
  lemma DeleteBookKeepsConsistent(ctx: SecurityContext, cache: Cache, lib: Library, id: Id)
    requires Consistent(lib)
    ensures Consistent(DeleteBook(ctx, cache, lib, id).1)
    ensures Coherent(cache, lib.books) ==>
              var (c, s, _) := DeleteBook(ctx, cache, lib, id); Coherent(c, s.books)
  {
    if RequireLibrarian(ctx) == Allow {
      Catalog.DeleteBookKeepsConsistent(lib, id);
      if Coherent(cache, lib.books) {
        DeleteKeepsCoherent(cache, lib, id);
      }
    }
  }
}
