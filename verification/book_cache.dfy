/**
 * The "books" cache in front of `BookServiceImpl.findBookById`: a Redis cache whose
 * entries expire `ttl` milliseconds after they are written (`app.cache.ttl-seconds`,
 * ten minutes when unset). `@Cacheable` answers a live entry without reading the
 * table and caches what a miss found; `@CacheEvict` on `deleteBook` drops the entry
 * once the delete has succeeded. No other operation reads or writes the cache, so
 * `borrowBook` and `returnBook`, which change a book's status, leave its cached copy
 * as it was.
 *
 * Whether the annotations take effect is decided by the application class, which is
 * not part of this model, and whether a write succeeds depends on the value
 * serializer: `CacheMode` names the three cases.
 */
module BookCache {
  import opened Wrappers
  import opened Clock
  import opened Tables
  import opened Entities
  import Lending
  import Catalog

  /** How the "books" cache behaves in a deployment. */
  datatype CacheMode =
    | Disabled        // caching not enabled: the annotations are inert
    | JdkSerialized   // the configuration as written: JDK serialization of a `Book`, which is not `Serializable`
    | Storable        // a value serializer that can write a `Book`

  /** A cached copy of a book and the time it was written. */
  datatype Entry = Entry(book: Book, storedAt: Millis)

  type Cache = map<Id, Entry>

  /** `app.cache.ttl-seconds` when unset, in milliseconds. */
  const DEFAULT_TTL: Millis := 600 * 1000

  /** An entry is served until `ttl` has passed since it was written. */
  predicate Live(e: Entry, now: Millis, ttl: Millis) {
    now < e.storedAt + ttl
  }

  /** A read of `id` at `now` is answered from the cache. */
  predicate Hit(mode: CacheMode, cache: Cache, id: Id, now: Millis, ttl: Millis) {
    mode != Disabled && id in cache && Live(cache[id], now, ttl)
  }

  /** Every cached copy is the stored row. */
  ghost predicate Coherent(cache: Cache, books: Table<Book>) {
    forall id :: id in cache ==> id in books.rows && cache[id].book == books.rows[id]
  }

  /**
   * `findBookById` behind `@Cacheable(value = "books", key = "#id")`. With caching
   * disabled it is the table read. Otherwise a live entry is the answer, whatever the
   * table now holds; on a miss the table is read and a found book is written to the
   * cache at `now`. Under JDK serialization that write throws, so a found book is never
   * answered; a not-found exception writes nothing in any mode.
   */
  function FindBookById(mode: CacheMode, cache: Cache, books: Table<Book>, id: Id, now: Millis, ttl: Millis)
    : (r: (Cache, Result<Book, Failure>))
    ensures mode == Disabled ==> r == (cache, Catalog.FindBookById(books, id))
    ensures Hit(mode, cache, id, now, ttl) ==> r == (cache, Ok(cache[id].book))
    ensures mode == Storable && !Hit(mode, cache, id, now, ttl) ==> r.1 == Catalog.FindBookById(books, id)
    ensures mode == JdkSerialized && !Hit(mode, cache, id, now, ttl) ==>
              && (r.1 == Err(CacheWriteFailed(id)) <==> id in books.rows)
              && (id !in books.rows ==> r.1 == Err(NotFound(BookEntity, id)))
    ensures mode != Storable || r.1.Err? ==> r.0 == cache
    ensures mode == Storable && r.1.Ok? ==> r.0.Keys == cache.Keys + {id} && r.0[id].book == r.1.value
    ensures forall k :: k in cache && k != id ==> k in r.0 && r.0[k] == cache[k]
  {
    if mode == Disabled then (cache, Catalog.FindBookById(books, id))
    else if Hit(mode, cache, id, now, ttl) then (cache, Ok(cache[id].book))
    else
      match Catalog.FindBookById(books, id)
      case Err(f) => (cache, Err(f))
      case Ok(b) =>
        if mode == JdkSerialized then (cache, Err(CacheWriteFailed(id)))
        else (cache[id := Entry(b, now)], Ok(b))
  }

  /** Under JDK serialization nothing is ever cached, so from an empty cache every read
      of a stored book fails at the cache write, and the cache stays empty. */
  lemma JdkWriteFails(books: Table<Book>, id: Id, now: Millis, ttl: Millis)
    requires id in books.rows
    ensures FindBookById(JdkSerialized, map[], books, id, now, ttl) == (map[], Err(CacheWriteFailed(id)))
  {
  }

  /** When a book can be cached, and while the cache is coherent, a cached read answers
      what the table holds, and the cache stays coherent. */
  lemma CoherentReadsAreFresh(mode: CacheMode, cache: Cache, books: Table<Book>, id: Id, now: Millis, ttl: Millis)
    requires mode != JdkSerialized && Coherent(cache, books)
    ensures var (c, r) := FindBookById(mode, cache, books, id, now, ttl);
            r == Catalog.FindBookById(books, id) && Coherent(c, books)
  {
  }

  /** `deleteBook` behind `@CacheEvict(value = "books", key = "#id")`: the entry goes
      only when the delete succeeds; a not-found exception leaves the cache alone. */
  function DeleteBook(cache: Cache, lib: Library, id: Id): (r: (Cache, Outcome<()>))
    ensures r.1 == Catalog.DeleteBook(lib, id)
    ensures r.1.result.Ok? ==> id !in r.0 && r.0 == cache - {id}
    ensures r.1.result.Err? ==> r.0 == cache
  {
    var o := Catalog.DeleteBook(lib, id);
    if o.result.Ok? then (cache - {id}, o) else (cache, o)
  }

  /** Deleting a book keeps the cache coherent. */
  lemma DeleteKeepsCoherent(cache: Cache, lib: Library, id: Id)
    requires Coherent(cache, lib.books)
    ensures var (c, o) := DeleteBook(cache, lib, id); Coherent(c, o.state.books)
  {
  }

  /** `addBook` touches no entry, and the fresh id it stores under has none. */
  lemma AddBookKeepsCoherent(cache: Cache, lib: Library, book: Book)
    requires Valid(lib.books) && Coherent(cache, lib.books)
    ensures Coherent(cache, Catalog.AddBook(lib, book).state.books)
  {
  }

  /**
   * Once a book can be cached, a borrow leaves its cached copy in place: a read while
   * that copy is live still answers the book as AVAILABLE, although the table now
   * holds it as BORROWED, and the cache is no longer coherent.
   */
  lemma StaleReadAfterBorrow(cache: Cache, lib: Library, bookId: Id, userId: Id, checkoutAt: Millis,
                             dueFrom: Millis, now: Millis, ttl: Millis)
    requires Coherent(cache, lib.books)
    requires bookId in cache && Live(cache[bookId], now, ttl)
    requires Lending.BorrowBook(lib, bookId, userId, checkoutAt, dueFrom).result.Ok?
    ensures var s := Lending.BorrowBook(lib, bookId, userId, checkoutAt, dueFrom).state;
            var r := FindBookById(Storable, cache, s.books, bookId, now, ttl).1;
            && r.Ok? && r.value.status == AVAILABLE
            && s.books.rows[bookId].status == BORROWED
            && !Coherent(cache, s.books)
  {
  }

  /**
   * The same on one library, once a book can be cached: book 0 is read at time 0,
   * which caches it, then borrowed at time 1. A read at time 2, within the default
   * lifetime, answers AVAILABLE.
   */
  lemma StaleReadTrace()
    ensures var s0 := Lending.OneBookOneUser();
            var (c1, _) := FindBookById(Storable, map[], s0.books, 0, 0, DEFAULT_TTL);
            var s1 := Lending.BorrowBook(s0, 0, 0, 1, 1).state;
            var r := FindBookById(Storable, c1, s1.books, 0, 2, DEFAULT_TTL).1;
            && s1.books.rows[0].status == BORROWED
            && r == Ok(s0.books.rows[0]) && r.value.status == AVAILABLE
  {
  }

  /** `borrowBook` with the eviction the source lacks: on success the borrowed book's
      entry is dropped, so the cache stays coherent with the table. */
  function BorrowBookEvicting(cache: Cache, lib: Library, bookId: Id, userId: Id, checkoutAt: Millis,
                              dueFrom: Millis): (r: (Cache, Outcome<Lending.Loan>))
    ensures r.1 == Lending.BorrowBook(lib, bookId, userId, checkoutAt, dueFrom)
    ensures r.1.result.Ok? ==> r.0 == cache - {bookId}
    ensures r.1.result.Err? ==> r.0 == cache
    ensures Coherent(cache, lib.books) ==> Coherent(r.0, r.1.state.books)
  {
    var o := Lending.BorrowBook(lib, bookId, userId, checkoutAt, dueFrom);
    if o.result.Ok? then (cache - {bookId}, o) else (cache, o)
  }

  /** The corrected `returnBook` with the same eviction, for the book of the loan. */
  function ReturnBookEvicting(cache: Cache, lib: Library, tid: Id, now: Millis): (r: (Cache, Outcome<Lending.Loan>))
    ensures r.1 == Lending.ReturnBookChecked(lib, tid, now)
    ensures r.1.result.Ok? ==> r.0 == cache - {lib.txns.rows[tid].book}
    ensures r.1.result.Err? ==> r.0 == cache
    ensures Coherent(cache, lib.books) ==> Coherent(r.0, r.1.state.books)
  {
    var o := Lending.ReturnBookChecked(lib, tid, now);
    if o.result.Ok? then (cache - {o.result.value.txn.book}, o) else (cache, o)
  }

  /** With a cacheable book and eviction, a read after a borrow answers the book as
      BORROWED. */
  lemma FreshReadAfterEvictingBorrow(cache: Cache, lib: Library, bookId: Id, userId: Id, checkoutAt: Millis,
                                     dueFrom: Millis, now: Millis, ttl: Millis)
    requires Coherent(cache, lib.books)
    requires Lending.BorrowBook(lib, bookId, userId, checkoutAt, dueFrom).result.Ok?
    ensures var (c, o) := BorrowBookEvicting(cache, lib, bookId, userId, checkoutAt, dueFrom);
            FindBookById(Storable, c, o.state.books, bookId, now, ttl).1 == Ok(o.state.books.rows[bookId])
            && o.state.books.rows[bookId].status == BORROWED
  {
    var (c, o) := BorrowBookEvicting(cache, lib, bookId, userId, checkoutAt, dueFrom);
    CoherentReadsAreFresh(Storable, c, o.state.books, bookId, now, ttl);
  }
}
