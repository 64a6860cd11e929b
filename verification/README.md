# Digital library backend: lending, tokens and access rules in Dafny

This project models the core of a Spring Boot library-lending backend. It covers:

- the catalogue of books, the registered users and the loans that tie them together;
- the cache in front of the read of one book;
- the lending state machine (`borrowBook` / `returnBook`);
- the JWT access and refresh tokens, and the filter that turns a bearer token into an authenticated request;
- the ordered table of access rules;
- the database-then-in-memory credential check;
- the register / login / refresh / whoami endpoints.

Everything is modelled as immutable data and pure functions:

- **The database.** Each repository is a `Table` (`tables.dfy`): rows keyed by id, plus the next id the IDENTITY column will hand out. `findAll` lists rows in ascending id order.
- **Service calls.** A `@Transactional` service call is one step. It returns an `Outcome`: the new state, and either a result or a `Failure`. A failing call leaves the state as it was (rollback).
- **The book cache.** The Redis cache behind `findBookById` is a map from book id to a cached copy and the time it was written (`book_cache.dfy`). Entries are live for a configurable lifetime. Whether the cache is active, and whether it can write a `Book`, is the parameter `CacheMode`:
  - `Disabled`: the application class, which is not part of this model, does not enable caching;
  - `JdkSerialized`: the configuration as written, whose default value serializer is JDK serialization, which `Book` does not implement;
  - `Storable`: a serializer that can write a `Book`.
- **Inputs from outside.** The wall clock is an explicit `Millis` argument at every place the source reads it. Token signing and parsing are parameters (`Signer`, `Parser`), related only by `Sound`: parsing what was signed gives back the payload. Password encoding and matching are parameters too (`Encoder`, `Matcher`), related by `EncoderSound`.
- **The invariant.** `Entities.Consistent` is the lending invariant. A book is BORROWED exactly when it has an open loan, it has at most one, every loan names a stored book, and isbns are unique.

Modules follow the program: `Entities` (entities), `Lending` (TransactionServiceImpl), `Catalog` (BookServiceImpl), `BookCache` (its `@Cacheable` and `@CacheEvict` annotations with CacheConfig), `Members` (UserServiceImpl), `Principals` (DbUserDetailsService), `Tokens` (JwtTokenService), `AuthFilter` (JwtAuthenticationFilter), `Policy` and `Credentials` (SecurityConfig), `BookApi` (BookController) and `AuthApi` (AuthController). `Journeys` chains them into end-to-end requests.

Several properties follow from the code as written rather than from any one method:

- **Self-registration as librarian.** Registration stores any requested role verbatim. A caller who registers with role `ROLE_LIBRARIAN` can create and delete books (`Journeys.SelfRegisteredLibrarian`).
- **Malformed rows.** `addUser` stores any body, including one with a blank role or an empty email. The principal builder rejects such a row, and that exception stops every login with that email, in-memory fallback included (`Journeys.MalformedUserLocksOut`).
- **User overwrite.** `addUser` saves the body as given, so a body carrying the id of a stored user replaces that user's row.
- **In-memory users.** The two in-memory users can log in, because the credential check falls back to them. Their tokens never authenticate a request, because the filter resolves subjects through the database users only (`Journeys.InMemoryTokensRejected`).
- **User endpoints.** `/api/users/**`, where users are added and deleted, needs authentication and no role.
- **Transactions.** `/api/transactions/**` needs authentication and no role, so any member may borrow on behalf of any user id.

## Model

| member | source | states |
|---|---|---|
| Entities.StatusName | src/main/java/com/library/entity/Book.java:41-43 | a status is stored as its enum name, AVAILABLE or BORROWED |
| Entities.StatusFromName | src/main/java/com/library/entity/Book.java:41-43 | only the two enum names read back as a status, and each reads back to the name it came from |
| Entities.StatusColumnRoundTrip | src/main/java/com/library/entity/Book.java:41-43 | writing a status to its column and reading it back gives the same status |
| Entities.FailureStatus | src/main/java/com/library/serviceimpl/TransactionServiceImpl.java:40-48 | not-found is answered 404 and an unavailable book 409 |
| Tables.Insert | src/main/java/com/library/entity/Book.java:25-27 | `save` of a new row stores it under an id no existing row has, and the table stays well-formed |
| Tables.Store | src/main/java/com/library/serviceimpl/TransactionServiceImpl.java:51-52 | `save` of an existing row replaces that row only, keeping every id |
| Tables.Remove | src/main/java/com/library/serviceimpl/BookServiceImpl.java:62 | `deleteById` removes exactly that id and keeps every other row |
| Tables.IdsWhereBelow | src/main/java/com/library/serviceimpl/BookServiceImpl.java:36-39 | a filtered scan lists exactly the ids below the bound whose rows pass the filter, in ascending order |
| Tables.RowsWhere | src/main/java/com/library/serviceimpl/BookServiceImpl.java:36-39 | `findAll` followed by a filter yields exactly the passing rows, each once, in store order |
| Lending.BorrowBook | src/main/java/com/library/serviceimpl/TransactionServiceImpl.java:36-62 | unknown book, then unknown user, then a book not AVAILABLE each fail with state unchanged. It succeeds exactly when all three checks pass. That book alone becomes BORROWED, and one new open loan of that book to that user is added under a fresh id. Users and older loans are untouched |
| Lending.DueIsTwoWeeksAfterCheckout | src/main/java/com/library/serviceimpl/TransactionServiceImpl.java:58-59 | the due date is two weeks after the second clock reading: fourteen days after checkout, plus the drift between the two readings |
| Lending.ReturnBook | src/main/java/com/library/serviceimpl/TransactionServiceImpl.java:64-80 | an unknown transaction fails with not-found and changes nothing. Otherwise the book becomes AVAILABLE and the return date is stamped with the current time, whether or not the loan was already returned. Nothing else changes |
| Lending.ReturnBookChecked | src/main/java/com/library/serviceimpl/TransactionServiceImpl.java:64-80 | corrected return: a loan already returned is rejected with state unchanged; an open loan is returned as above |
| Lending.OpenLoansAfterBorrow | src/main/java/com/library/serviceimpl/TransactionServiceImpl.java:51-61 | after a borrow, the open loans are the old ones plus the new one |
| Lending.BorrowKeepsConsistent | src/main/java/com/library/serviceimpl/TransactionServiceImpl.java:36-62 | borrowing preserves the lending invariant |
| Lending.ReturnOpenLoanKeepsConsistent | src/main/java/com/library/serviceimpl/TransactionServiceImpl.java:64-80 | returning an open loan preserves the lending invariant |
| Lending.ReturnCheckedKeepsConsistent | src/main/java/com/library/serviceimpl/TransactionServiceImpl.java:64-80 | the corrected return preserves the lending invariant for every transaction id |
| Lending.ReturnFailsOnlyWhenUnknown | src/main/java/com/library/serviceimpl/TransactionServiceImpl.java:68-69 | in a consistent library a return fails exactly when the transaction id is unknown |
| Lending.BorrowThenReturn | src/main/java/com/library/serviceimpl/TransactionServiceImpl.java:36-80 | borrowing and then returning the new loan restores the books table exactly. That loan keeps its checkout date and carries the return date |
| Lending.SecondBorrowFails | src/main/java/com/library/serviceimpl/TransactionServiceImpl.java:46-48 | after a successful borrow, the book cannot be borrowed again: not-found for an unknown user, unavailable otherwise, state unchanged |
| Lending.DoubleReturnReleasesBorrowedBook | src/main/java/com/library/serviceimpl/TransactionServiceImpl.java:72-79 | as written: returning an old loan a second time makes a book AVAILABLE while a later loan of it is still open, breaking the invariant |
| Lending.DoubleReturnRejected | src/main/java/com/library/serviceimpl/TransactionServiceImpl.java:72-79 | the corrected return rejects that second return and the book stays BORROWED |
| Tables.All | src/main/java/com/library/serviceimpl/BookServiceImpl.java:30-32 | `findAll`, behind `findAllBooks` and `findAllUsers` (UserServiceImpl.java:37-39): every stored row, each once, in store order |
| Catalog.FindAvailableBooks | src/main/java/com/library/serviceimpl/BookServiceImpl.java:35-40 | exactly the stored books whose status is AVAILABLE, each once, in store order |
| Catalog.FindBookById | src/main/java/com/library/serviceimpl/BookServiceImpl.java:45-46 | the table read the cache falls back to: the stored book when present, not-found exactly when absent |
| Catalog.AddBook | src/main/java/com/library/serviceimpl/BookServiceImpl.java:50-53 | the book is stored and returned as given under a fresh id. A stored isbn is refused by the unique column, with state unchanged |
| Catalog.WithoutLoansOf | src/main/java/com/library/entity/Book.java:50-52 | the cascade from a deleted book removes exactly its loans |
| Catalog.DeleteBook | src/main/java/com/library/serviceimpl/BookServiceImpl.java:57-63 | an absent id is not-found with nothing deleted. Otherwise exactly that book goes, with its loans. Every other book and loan is untouched, and neither id counter moves |
| Catalog.SearchBooksByTitle | src/main/java/com/library/serviceimpl/BookServiceImpl.java:67-69 | exactly the books whose title contains the query, ignoring case |
| Catalog.SearchBooksByAuthor | src/main/java/com/library/serviceimpl/BookServiceImpl.java:72-74 | exactly the books whose author contains the query, ignoring case |
| Catalog.AddAvailableBookKeepsConsistent | src/main/java/com/library/serviceimpl/BookServiceImpl.java:50-53 | adding an AVAILABLE book preserves the lending invariant |
| Catalog.DeleteBookKeepsConsistent | src/main/java/com/library/serviceimpl/BookServiceImpl.java:57-63 | deleting a book with its loans preserves the lending invariant |
| Catalog.TestTitleMatches | src/test/java/com/library/repository/BookRepositoryTest.java:25-29 | "test title" occurs in "Test Title" once case is ignored |
| Catalog.TitleSearchIgnoresCase | src/test/java/com/library/repository/BookRepositoryTest.java:22-33 | the title search for "test title" finds the stored "Test Title" book, whose author is "Test Author" |
| BookCache.FindBookById | src/main/java/com/library/serviceimpl/BookServiceImpl.java:42-47 | with caching disabled, the table read. Otherwise a live cached copy is the answer, whatever the table holds. On a miss the table is read: a not-found caches nothing; a found book is cached at the current time when it can be serialized, and under JDK serialization the write fails instead. No other entry changes |
| BookCache.JdkWriteFails | src/main/java/com/library/config/CacheConfig.java:17-19 | under JDK serialization nothing is ever cached, and every read of a stored book fails at the cache write |
| BookCache.CoherentReadsAreFresh | src/main/java/com/library/serviceimpl/BookServiceImpl.java:42-47 | with caching disabled, or with a book the cache can write, and while every cached copy equals its stored row, a cached read answers exactly what the table holds, and that stays true afterwards |
| BookCache.DeleteBook | src/main/java/com/library/serviceimpl/BookServiceImpl.java:55-63 | the delete as in `Catalog.DeleteBook`; the entry is evicted exactly when the delete succeeds |
| BookCache.DeleteKeepsCoherent | src/main/java/com/library/serviceimpl/BookServiceImpl.java:55-63 | deleting a book keeps every cached copy equal to its stored row |
| BookCache.AddBookKeepsCoherent | src/main/java/com/library/serviceimpl/BookServiceImpl.java:49-53 | adding a book keeps every cached copy equal to its stored row |
| BookCache.StaleReadAfterBorrow | src/main/java/com/library/serviceimpl/TransactionServiceImpl.java:51-52 | once a book can be cached: after a borrow, a read within the cached copy's lifetime answers the book as AVAILABLE while the table holds it as BORROWED |
| BookCache.StaleReadTrace | src/main/java/com/library/serviceimpl/TransactionServiceImpl.java:51-52 | on one library, once a book can be cached: read book 0, borrow it, read it again within ten minutes, and the read answers AVAILABLE |
| BookCache.BorrowBookEvicting | src/main/java/com/library/serviceimpl/TransactionServiceImpl.java:36-62 | corrected borrow: the borrow as in `Lending.BorrowBook`, evicting the book's entry on success. Every cached copy stays equal to its stored row |
| BookCache.ReturnBookEvicting | src/main/java/com/library/serviceimpl/TransactionServiceImpl.java:64-80 | corrected return: `Lending.ReturnBookChecked`, evicting the loan's book on success. Every cached copy stays equal to its stored row |
| BookCache.FreshReadAfterEvictingBorrow | src/main/java/com/library/serviceimpl/TransactionServiceImpl.java:51-52 | with a cacheable book and eviction, any read after a borrow answers the book as BORROWED |
| Text.Upper | src/main/java/com/library/serviceimpl/BookServiceImpl.java:67-69 | case folding keeps the length and folds each character on its own |
| Text.BlankIffNoText | src/main/java/com/library/controllers/AuthController.java:74 | a string is blank exactly when it has no text |
| Text.PrefixGivesText | src/main/java/com/library/security/JwtAuthenticationFilter.java:32 | a string that starts with "Bearer " has text |
| Members.AddUser | src/main/java/com/library/serviceimpl/UserServiceImpl.java:23-26 | the user is stored exactly as given. A body carrying a stored id overwrites that row, and the id counter does not move. Any other body is stored under a fresh id. Books and loans do not change |
| Members.FindUserById | src/main/java/com/library/serviceimpl/UserServiceImpl.java:29-32 | the stored user when present, not-found exactly when absent |
| Members.DeleteUser | src/main/java/com/library/serviceimpl/UserServiceImpl.java:42-45 | an absent id is not-found with nothing removed. Under `Restrict`, a user some loan names is refused by the foreign key (a server error, state unchanged). Otherwise exactly that user goes, with its loans under `Cascade`; books, other users and other loans stay as they were |
| Members.AddUserKeepsConsistent | src/main/java/com/library/serviceimpl/UserServiceImpl.java:23-26 | adding or overwriting a user preserves the lending invariant |
| Members.DeleteUserKeepsConsistent | src/main/java/com/library/serviceimpl/UserServiceImpl.java:42-45 | under `Restrict`, where the non-null `user_id` foreign key refuses the delete of a user with loans, deleting a user preserves the lending invariant |
| Members.CascadeDeleteStrandsBook | src/main/java/com/library/entity/Transaction.java:38-41 | under `Cascade`, deleting a user with an open loan succeeds and breaks the lending invariant: the loan's book stays BORROWED with no open loan |
| Principals.RoleAuthority | src/main/java/com/library/config/SecurityConfig.java:43 | the authority a role check asks for is the role name prefixed with "ROLE_" |
| Principals.FindByEmail | src/main/java/com/library/security/DbUserDetailsService.java:31-32 | the single user with that email. Not-found exactly when no user has it. A failure exactly when two different users have it |
| Principals.PrincipalOf | src/main/java/com/library/security/DbUserDetailsService.java:34-39 | a row is rejected exactly when its role has no text or its email is empty. Otherwise the username is the stored email and the password the stored hash. The only authority is the stored role, verbatim |
| Principals.LoadUserByUsername | src/main/java/com/library/security/DbUserDetailsService.java:29-40 | the username is treated as an email. Not-found exactly when no user has it, and a failure when two users share it. Otherwise it is the principal of the sole holder, or the builder's rejection of that row |
| Tokens.BuildToken | src/main/java/com/library/security/JwtTokenService.java:71-80 | subject, issue time and an expiry one lifetime later override any extra claim of the same name; every other extra claim is kept |
| Tokens.GenerateAccessToken | src/main/java/com/library/security/JwtTokenService.java:34-36 | an access token names the user and expires one access lifetime after issue |
| Tokens.GenerateRefreshToken | src/main/java/com/library/security/JwtTokenService.java:38-40 | a refresh token names the user, carries only `type = "refresh"`, and expires one refresh lifetime after issue |
| Tokens.RefreshText | src/main/java/com/library/security/JwtTokenService.java:50 | a claim prints as "refresh" exactly when it is the string "refresh" |
| Tokens.IsRefreshToken | src/main/java/com/library/security/JwtTokenService.java:47-54 | true exactly when the token parses and its "type" claim is "refresh"; false, not a failure, when it does not parse |
| Tokens.GetUsername | src/main/java/com/library/security/JwtTokenService.java:63-65 | the subject of a parseable token; a failure exactly when the token does not parse |
| Tokens.IsExpired | src/main/java/com/library/security/JwtTokenService.java:67-69 | true exactly when the expiry lies strictly before now |
| Tokens.IsTokenValid | src/main/java/com/library/security/JwtTokenService.java:42-45 | true exactly when the subject is the user's name and the token has not expired. A different subject gives false without the expiry test |
| Tokens.GenerateAccessFromRefresh | src/main/java/com/library/security/JwtTokenService.java:56-61 | rejects exactly the tokens that are not refresh tokens. Otherwise a new access token for the given user, with no extra claims |
| Tokens.IssuedSubjectWins | src/main/java/com/library/security/JwtTokenService.java:71-80 | an issued token's subject is the name it was built for, even when the extra claims hold a "sub" |
| Tokens.IssuedTokenValidity | src/main/java/com/library/security/JwtTokenService.java:42-45 | an issued token is valid for a user exactly when it names that user and is used no later than issue time plus lifetime |
| Tokens.IssuedRefreshIsRefresh | src/main/java/com/library/security/JwtTokenService.java:38-40 | every issued refresh token passes the refresh test |
| Tokens.AccessIsNotRefresh | src/main/java/com/library/security/JwtTokenService.java:56-61 | an access token without `type = "refresh"` fails the refresh test and cannot buy a new access token |
| AuthFilter.BearerToken | src/main/java/com/library/security/JwtAuthenticationFilter.java:31-33 | a token is found exactly when the header starts with "Bearer ", and the header is "Bearer " followed by the token |
| AuthFilter.BearerRoundTrip | src/main/java/com/library/security/JwtAuthenticationFilter.java:33 | whatever follows "Bearer " is taken as the token, unchanged |
| AuthFilter.Resolve | src/main/java/com/library/security/JwtAuthenticationFilter.java:34-46 | a principal is produced exactly when the token parses, its subject loads a stored user, and the token is valid for that user. It is that user, named by the subject, and the token has not expired |
| AuthFilter.DoFilter | src/main/java/com/library/security/JwtAuthenticationFilter.java:30-49 | an existing authentication is never replaced, and without a bearer token nothing changes. Otherwise the context gains the resolved user with exactly its authorities, or stays as it was |
| AuthFilter.ExpiredTokenIgnored | src/main/java/com/library/security/JwtAuthenticationFilter.java:38-46 | an expired token never authenticates a request |
| AuthFilter.UnknownSubjectIgnored | src/main/java/com/library/security/JwtAuthenticationFilter.java:37-46 | a token whose subject no stored user has as email never authenticates a request |
| AuthFilter.UnparseableTokenIgnored | src/main/java/com/library/security/JwtAuthenticationFilter.java:35-46 | a string the parser rejects never authenticates a request, and the failure is swallowed |
| Policy.Check | src/main/java/com/library/config/SecurityConfig.java:39-46 | permitAll allows everyone. Authenticated and role rules refuse an unauthenticated caller. A role rule allows exactly the authenticated callers holding "ROLE_" + role |
| Policy.FirstMatchWins | src/main/java/com/library/config/SecurityConfig.java:39-46 | the first rule that matches decides, whatever follows it |
| Policy.NoMatchDenies | src/main/java/com/library/config/SecurityConfig.java:39-46 | a request no rule matches is denied |
| Policy.PublicEndpointsOpen | src/main/java/com/library/config/SecurityConfig.java:40 | login, register, refresh and the API documentation paths are open to anyone, with any method |
| Policy.WhoamiNeedsAuthentication | src/main/java/com/library/config/SecurityConfig.java:41 | whoami is allowed exactly for authenticated callers |
| Policy.BookReadsPublic | src/main/java/com/library/config/SecurityConfig.java:42 | GET on the book subtree is allowed whoever asks |
| Policy.BookWritesNeedLibrarian | src/main/java/com/library/config/SecurityConfig.java:43 | any other method on the book subtree is allowed exactly for authenticated holders of ROLE_LIBRARIAN |
| Policy.TransactionsNeedAuthenticationOnly | src/main/java/com/library/config/SecurityConfig.java:44 | the transaction subtree is allowed exactly for authenticated callers, with no role check |
| Policy.OtherApiRequestsNeedAuthentication | src/main/java/com/library/config/SecurityConfig.java:40-45 | every request that none of the five earlier rules matches, by path or by verb, is allowed exactly for authenticated callers |
| Policy.UserEndpointsNeedAuthenticationOnly | src/main/java/com/library/config/SecurityConfig.java:45 | the user subtree, including adding and deleting users, is allowed exactly for authenticated callers |
| Policy.RequireLibrarian | src/main/java/com/library/controllers/BookController.java:29 | `hasRole('LIBRARIAN')` allows exactly authenticated holders of ROLE_LIBRARIAN |
| Credentials.InMemoryUsers | src/main/java/com/library/config/SecurityConfig.java:66-81 | two built-in users, "librarian" with ROLE_LIBRARIAN and "member" with ROLE_MEMBER, both with the encoded demo password |
| Credentials.FindInMemory | src/main/java/com/library/config/SecurityConfig.java:80 | a user of that name when one is held, none exactly when no held user has that name |
| Credentials.InMemoryVerdict | src/main/java/com/library/config/SecurityConfig.java:59-61 | the in-memory provider accepts exactly a held user of that name whose hash the raw password matches |
| Credentials.CheckPassword | src/main/java/com/library/config/SecurityConfig.java:55-61 | a provider accepts a loaded user exactly when the raw password matches the stored hash |
| Credentials.Authenticate | src/main/java/com/library/config/SecurityConfig.java:54-64 | a database user whose password matches wins. A lookup failure other than not-found stops with an internal error, and only such a failure does. After an unknown email or a wrong password the in-memory provider's verdict is the answer. Any success names the requested user with a matching password |
| Credentials.DemoUsersLogIn | src/main/java/com/library/config/SecurityConfig.java:66-81 | each in-memory user logs in with the demo password while no stored user has its name as email |
| Credentials.StoredUserLogsIn | src/main/java/com/library/config/SecurityConfig.java:54-64 | a well-formed stored user with a unique email logs in with the password whose encoding it stores |
| AuthApi.Status | src/main/java/com/library/controllers/AuthController.java:61-112 | the controller answers 201 on registration and 200 on tokens or identity. It chooses no status when an exception escapes |
| AuthApi.EffectiveRole | src/main/java/com/library/controllers/AuthController.java:74 | a missing or blank role becomes ROLE_MEMBER; any other is kept verbatim |
| AuthApi.Register | src/main/java/com/library/controllers/AuthController.java:68-84 | registration succeeds exactly when no stored user has the email. It then stores the encoded password and the effective role under a fresh id and echoes email and role. An email held by one user answers 409, and one held by several users fails; both store nothing |
| AuthApi.RolesClaim | src/main/java/com/library/controllers/AuthController.java:93-95 | a login's extra claims are exactly "roles", listing the principal's authorities |
| AuthApi.Login | src/main/java/com/library/controllers/AuthController.java:86-99 | tokens are issued exactly when the credentials authenticate; otherwise the authentication error escapes |
| AuthApi.LoginTokens | src/main/java/com/library/controllers/AuthController.java:93-98 | the access token names the user, lists exactly its authorities as "roles", expires one access lifetime later and is no refresh token. The refresh token names the same user and is one |
| AuthApi.Refresh | src/main/java/com/library/controllers/AuthController.java:55-66 | an unparseable token or an unknown subject fails before any check. It answers 401 exactly when the token is not a refresh token or has expired. Otherwise a new access token comes back with the same refresh token |
| AuthApi.RefreshedAccessToken | src/main/java/com/library/controllers/AuthController.java:63-65 | the refreshed access token names the refresh token's subject and carries no "roles" claim |
| AuthApi.Whoami | src/main/java/com/library/controllers/AuthController.java:101-113 | 401 exactly when no authenticated principal is present. Otherwise its name and exactly the set of its authorities |
| BookApi.ToResponse | src/main/java/com/library/controllers/BookController.java:81-90 | the response carries the id and every field of the stored book unchanged |
| BookApi.ToResponseInjective | src/main/java/com/library/controllers/BookController.java:81-90 | two responses are equal exactly when they come from the same id and book |
| BookApi.NewBook | src/main/java/com/library/controllers/BookController.java:31-36 | a created book copies the request's fields and is always AVAILABLE |
| BookApi.AddBook | src/main/java/com/library/controllers/BookController.java:28-40 | a caller without ROLE_LIBRARIAN is refused with nothing stored. The book is created exactly when the caller is a librarian and the isbn is new. It is then stored AVAILABLE under a fresh id and echoed back |
| BookApi.GetBookById | src/main/java/com/library/controllers/BookController.java:43-47 | a live cached copy is answered as cached. With caching disabled, or a book the cache can write and a coherent cache, the stored book's response when present and not-found exactly when absent. Under JDK serialization a stored book that is not cached fails at the cache write |
| BookApi.GetAvailableBooks | src/main/java/com/library/controllers/BookController.java:56-59 | exactly the AVAILABLE books as responses, each once, in store order |
| BookApi.DeleteBook | src/main/java/com/library/controllers/BookController.java:62-67 | a caller without ROLE_LIBRARIAN is refused with nothing deleted. It answers 204 exactly when a librarian deletes a stored book, which is then gone from the table and the cache |
| BookApi.CreatedBookIsAvailable | src/main/java/com/library/controllers/BookController.java:28-59 | a book created through the endpoint is listed among the available books afterwards |
| BookApi.AddBookKeepsConsistent | src/main/java/com/library/controllers/BookController.java:28-40 | creating a book through the endpoint preserves the lending invariant |
| BookApi.DeleteBookKeepsConsistent | src/main/java/com/library/controllers/BookController.java:62-67 | deleting a book through the endpoint preserves the lending invariant and a coherent cache |
| Journeys.StoredUserSession | src/main/java/com/library/controllers/AuthController.java:86-113 | a well-formed stored user who logs in and presents the access token in time is authenticated as that user with exactly its role, and whoami reports both |
| Journeys.StoredUserRefresh | src/main/java/com/library/controllers/AuthController.java:55-99 | a login's refresh token buys new access tokens until it expires and 401 afterwards; the access token is never accepted as a refresh token |
| Journeys.InMemoryTokensRejected | src/main/java/com/library/security/JwtAuthenticationFilter.java:35-41 | the in-memory users log in, but their access tokens never authenticate a request and their refresh tokens fail on the user lookup |
| Journeys.MalformedUserLocksOut | src/main/java/com/library/security/DbUserDetailsService.java:34-39 | a sole stored holder of an email whose row the builder rejects makes every login with that email fail with an internal error |
| Journeys.SelfRegisteredLibrarian | src/main/java/com/library/controllers/AuthController.java:74-80 | anyone who registers with role ROLE_LIBRARIAN and a non-empty email, and logs in, may create and delete books through both the rule table and the method check |

## Left out

- Token cryptography and wire format: HS256 signing, compact serialization, base64 and key decoding happen inside the JWT library. They are the `sign`/`parse` parameters, tied together only by `Sound`.
- Tokens.BuildToken: the library stores issue and expiry times in whole seconds (section 4.1.4 of RFC 7519 defines them as NumericDate). The model keeps milliseconds, so `exp - iat == ttl` holds before that truncation, not after.
- AuthApi.Refresh: the JWT library's parser already rejects an expired token. In the source, an expired refresh token therefore raises at `getUsername` (line 58) and never reaches the 401 of line 60. The model's `parse` ignores expiry and keeps it as a field tested by `isExpired`, so it answers 401.
- Journeys.StoredUserRefresh: its 401 after expiry rests on the same expiry abstraction as `AuthApi.Refresh`; in the source that request raises instead.
- AuthFilter.DoFilter: the request details the filter attaches to the authentication (`WebAuthenticationDetailsSource`) are not modelled.
- Credentials.FindInMemory: Spring's in-memory user manager looks names up case-insensitively; the model compares them exactly.
- Credentials.Authenticate: BCrypt hashing is the `encode`/`matches` pair. Credential erasure after success, account status checks and the provider's timing defences are not modelled.
- AuthApi.Login: the authentication it stores in the security context lasts only for this stateless request and is not modelled.
- AuthApi.Status: an exception that escapes a controller is answered by Spring's exception handling, which is not part of this model. Such replies are `Raised` with no status.
- BookApi.AddBook: an `@PreAuthorize` refusal is returned as the `Denial` without a status. With HTTP basic disabled and no other entry point configured, Spring answers 403 to anonymous callers and to callers without the role alike.
- Lending.BorrowBook: Hibernate's `@CreationTimestamp` on the checkout column may replace the checkout time with its own clock reading. The model takes the checkout time as a free argument, which covers either reading.
- Lending.ReturnBook: the source reaches the book through the loan's non-null foreign key, so the book cannot be missing. The model answers not-found for that case, which the lending invariant rules out (`Lending.ReturnFailsOnlyWhenUnknown`).
- Members.AddUser: User.java is not part of this model, so its id is assumed to be a generated `Long` like the book's. A body carrying an id no stored user has is inserted under a fresh id, as Hibernate before 6.6 merges it; Hibernate 6.6 and later reject it instead.
- Principals.PrincipalOf: the model has no null strings, so the builder's rejection of a null role or null password is covered only through a role without text and an empty email.
- Members.DeleteUser: User.java is not part of this model, so whether its loan collection cascades is a parameter (`UserLoans`). With no cascade, the non-null `user_id` column at Transaction.java:38-41 makes the database refuse the delete, modelled as `UserHasLoans` with status 500. With a cascade, the user's loans go too, and `Members.CascadeDeleteStrandsBook` shows the lending invariant then breaks. The User entity's fields are taken from how the core uses them.
- Concurrency: `@Transactional` isolation and races between concurrent borrows are not modelled. Each service call is one atomic step.
- The auditing columns (`createdAt`, `updatedAt`, `createdBy`, `updatedBy`) are not modelled.
- Paging and sorting (`Pageable`/`Page`), the passthrough TransactionController and UserController, and the repository's derived queries are not modelled. The filters they perform are modelled as `Catalog.SearchBooksByTitle` and `Catalog.SearchBooksByAuthor`.
- BookCache.FindBookById: whether caching is enabled is decided by the application class, which is not part of this model, so it is the `CacheMode` parameter. Redis keeps the lifetime in whole seconds on the cache server's clock; the model measures it in milliseconds on the shared clock.
- BookCache.StaleReadAfterBorrow: holds only in `Storable` mode. With the configuration as written the cache write fails first (`BookCache.JdkWriteFails`), and with caching disabled there is no copy to go stale.
- BookCache.StaleReadTrace: the same condition. In the source as written, its first read fails at the cache write or finds no cache.
- Catalog.FindBookById: the uncached table read only. The answer that `GET /api/books/{id}` gives in each cache mode is `BookCache.FindBookById`.
- Bean validation of requests (`@NotBlank`, `@Email`, `@NotNull`), logging, CSRF, session policy and the disabled HTTP basic login are framework configuration with no decision logic here.
- Text.Upper: case folding covers the ASCII letters only; the database's Unicode collation is not modelled.

## Findings

| source | as written | input that shows it | evidently intended | confidence | as-written member | corrected member |
|---|---|---|---|---|---|---|
| src/main/java/com/library/serviceimpl/TransactionServiceImpl.java:64-80 | `returnBook` sets the book AVAILABLE and re-stamps the return date even when the loan was already returned | one book, one user: borrow (loan 0), return loan 0, borrow again (loan 1), return loan 0 again. The book is AVAILABLE while loan 1 is still open | a loan that is already returned is rejected and nothing changes, so a book is BORROWED exactly while it has an open loan | not executed | Lending.DoubleReturnReleasesBorrowedBook | Lending.ReturnBookChecked |
| src/main/java/com/library/config/CacheConfig.java:17-19 | the cache writes values with the default JDK serializer, and `Book` (Book.java:23) is not `Serializable` | with caching enabled, `GET /api/books/0` of a stored book that is not yet cached: the cache write after the table read throws | the read answers the stored book | not executed; assumes the application class enables caching | BookCache.JdkWriteFails | BookCache.CoherentReadsAreFresh |
| src/main/java/com/library/serviceimpl/TransactionServiceImpl.java:51-52 | `findBookById` is cached for ten minutes, and `borrowBook` and `returnBook` change the book's status without evicting its entry | once a book can be cached (the row above corrected): read book 0, borrow it, read it again a moment later. The second read answers AVAILABLE while the table holds BORROWED | a status change evicts the book's entry, so a read answers the stored status | not executed; conditional on caching being enabled and the row above corrected | BookCache.StaleReadAfterBorrow | BookCache.BorrowBookEvicting |
