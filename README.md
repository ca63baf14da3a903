# Library management: borrowing, catalog, accounts and client requests

This project models the decision logic of a small library-management system. The
system has a REST backend over a SQL database and a desktop client. The model covers
four parts:

- **Catalog and borrowing handlers** (`Books`). `GET /books` lists every book joined
  with its author, with a derived `canBeBorrowed` flag. `GET /authors` lists the
  authors. `/borrow` creates a borrow, `/borrowed-by/:user_id` lists one user's active
  borrows, and `/borrows` gives the librarian an overview of every active borrow.
- **Account handlers** (`Auth`): `/auth/create-account` and `/auth/login`, over the
  Users table.
- **The librarian gate** (`Utils`). The role of the caller is looked up by the
  cookie's id on every privileged call.
- **Client helpers** (`Http`): how the request URI is built, how a reply is sorted
  into a result or an error kind, and the session cookie the client keeps.

The SQL tables are values (`Storage.Tables`): one sequence of rows per table, plus a
map from `borrow_id` to the BorrowData columns. `Storage.Valid` states the key
constraints the model relies on: primary keys, unique emails, and the BorrowData
foreign key. The foreign keys from Borrows and Books to other tables are not part of it
(see "Left out"). `Storage.Linked` states the link that only the borrow handler
maintains: every Borrows row has its BorrowData row.

The two handlers that write are methods on a `Storage.Database` object whose fields
are the tables:

- `Books.Borrow` may modify only `borrows` and `borrowData`.
- `Auth.CreateAccount` may modify only `users`.

Each method is proved equal to a transition function (`Books.BorrowStep`,
`Auth.CreateAccountStep`). The lemmas are stated about those functions. The read-only
handlers are functions of the tables they query, so they cannot change anything.

Outside inputs are parameters:

- the request time `now`;
- the password salt;
- the transport's reply to a client request;
- the decoder of a success body.

Password hashing is `Password.Hash`/`Password.Verify`. `Verify(p, Hash(p, s))` always
holds.

Modules: `Wrappers`, `Schema`, `Password`, `Storage`, `Utils`, `Auth`, `Books`, `Json`,
`Http`, one file each.

## Model

| member | source | states |
|---|---|---|
| `Storage.CountBorrowsOf` | server/src/books.rs:23 | The active-borrow count of a book is at most the number of rows, and it is zero exactly when no Borrows row names the book. |
| `Storage.NextRowId` | server/src/books.rs:119-122 | The id an insert receives is larger than every existing id; it is 1 in an empty table and one more than the largest id otherwise. |
| `Books.Books` | server/src/books.rs:17-50 | Every listed entry is some book joined with an author whose id matches its `author_id`, and it carries that author's fields. Every such pair is listed. Each entry's `canBeBorrowed` holds iff its `count` exceeds its number of Borrows rows. |
| `Books.JoinAuthors` | server/src/books.rs:24 | For one book, the join yields exactly the book combined with each author whose id matches. With unique author ids it yields at most one entry. |
| `Books.BooksListsEachBookOnce` | server/src/books.rs:17-50 | With unique book ids and unique author ids, no two entries of `GET /books` share a `book_id`. Together with `Books.Books`, each book that has an author is listed exactly once. |
| `Books.Authors` | server/src/books.rs:52-73 | There is one entry per author, in order, with that author's id and name, `dateOfBirth = 0`, no `dateOfDeath` and an empty description. |
| `Books.BorrowStep` | server/src/books.rs:84-148 | Replies `alreadyBorrowed` iff the book is available and the user exists and holds a Borrows row for it. If it does not insert, the tables are unchanged; an unavailable book replies `false` even to a holder. Otherwise it appends one Borrows row with a fresh id and adds that id's BorrowData (deadline 30 days on, 0 chapters read), and replies `false`. |
| `Books.Borrow` | server/src/books.rs:75-149 | The handler's new tables and reply are exactly `BorrowStep`'s. It keeps the key constraints, and it keeps the Borrows/BorrowData link when that link held before. |
| `Books.BorrowKeepsValid` | server/src/books.rs:117-141 | A borrow preserves the primary keys and the BorrowData foreign key: the new id is fresh. |
| `Books.BorrowKeepsLinked` | server/src/books.rs:119-141 | If every Borrows row had its BorrowData row before a borrow, every row still has one after it. |
| `Books.BorrowCounts` | server/src/books.rs:119-129 | After a borrow, the borrowed book's active count has grown by one exactly when a row was inserted. Every other book's count is unchanged. |
| `Books.BorrowTakesLastCopy` | server/src/books.rs:84-148 | Borrowing the only copy of a book nobody holds inserts one row. The catalog listed afterwards shows that book as not borrowable. |
| `Books.TimesBorrowed` | server/src/books.rs:97-111 | The duplicate count is zero when the cookie's id has no Users row. Otherwise it is that user's number of Borrows rows for the book. It is positive iff the user has a Users row and holds a Borrows row for the book. |
| `Books.BorrowTwice` | server/src/books.rs:96-115 | Applies when the caller's id has a Users row (`FindUser(t.users, request.cookie.id).Some?`). After a successful borrow, the same request changes nothing. It replies `alreadyBorrowed` exactly when copies remain, so it replies `false` once the last copy is out. |
| `Books.UnknownUserBorrowsAgain` | server/src/books.rs:97-141 | A caller whose id has no Users row is never told `alreadyBorrowed`. Repeating a successful request inserts a second row for that id whenever a copy is left. |
| `Books.BorrowedBy` | server/src/books.rs:151-178 | Lists exactly the user's Borrows rows that have a BorrowData row, each with its deadline and chapters read. With unique borrow ids, no borrow is listed twice. |
| `Books.BorrowedByAppend` | server/src/books.rs:155-160 | A new row with a fresh id and its data extends the owner's list by that borrow. Every other user's list is unchanged. |
| `Books.JoinBorrows` | server/src/books.rs:186-204 | Lists exactly the Borrows rows that have a BorrowData row, with book, user and deadline. With unique borrow ids, no borrow is listed twice. |
| `Books.JoinBorrowsAppend` | server/src/books.rs:186-190 | A new row with a fresh id and its data extends the overview by exactly that borrow. |
| `Books.Borrows` | server/src/books.rs:180-207 | Succeeds iff the caller's Users row has the librarian type. On success it returns every joined borrow. Otherwise it returns the gate's error, whatever the borrow tables hold. |
| `Books.BorrowShowsInLists` | server/src/books.rs:117-141 | A successful borrow appears in the borrower's list (due 30 days on, 0 chapters) and in nobody else's. The librarian overview gains the same borrow. |
| `Auth.Login` | server/src/auth.rs:18-54 | NotFound iff no user has the email. Internal error iff the stored hash does not parse. Unauthorized iff the password does not verify. Otherwise it returns that user's id and type. |
| `Auth.CreateAccountStep` | server/src/auth.rs:56-88 | BadRequest iff a field is empty, and then nothing is inserted. An already-registered email is an internal error with nothing inserted. It succeeds iff every field is non-empty and the email is not registered. On success it appends one row with a fresh id, the normal-user type and the hash of the password (not the plaintext), and it replies with that id and type 1. |
| `Auth.CreateAccount` | server/src/auth.rs:56-88 | The handler's new Users table and reply are exactly `CreateAccountStep`'s; no other table changes. |
| `Auth.CreateAccountKeepsUsersValid` | server/src/auth.rs:71-79 | Creating an account keeps user ids and emails unique. |
| `Auth.LoginAfterCreateAccount` | server/src/auth.rs:64-86 | Right after an account is created, logging in with its email and password returns the new id and type 1. |
| `Password.Hash` | server/src/auth.rs:64-69 | A hash records its salt, and the password it was made from verifies against it. |
| `Password.Parse` | server/src/auth.rs:35-36 | The stored column parses iff it holds a well-formed hash string, and the parsed hash is the one stored. |
| `Password.VerifyIffRehash` | server/src/auth.rs:37-39 | `Password.Verify` accepts a password iff hashing it again with the hash's salt reproduces the stored hash. |
| `Storage.FindUser` | server/src/utils.rs:12-15 | The row found has the requested `user_id` and comes from the table. There is none iff no row has that id. |
| `Storage.FindUserByEmail` | server/src/auth.rs:22-32 | The row found has the requested email and comes from the table. There is none iff no row has that email. |
| `Storage.FindBook` | server/src/books.rs:84-94 | The row found has the requested `book_id` and comes from the table. There is none iff no row has that id. |
| `Utils.VerifyUserIsLibrarian` | server/src/utils.rs:7-22 | Ok iff the row found for the cookie's id has type 2 (librarian). It is an internal error (500) iff there is no such row. Any other type is Forbidden (403). |
| `Utils.LibrarianGateByTable` | server/src/utils.rs:11-21 | With unique user ids, the gate opens iff the table has a row with the cookie's id and the librarian type. A normal user is Forbidden, and an unknown id is an internal error. |
| `Utils.GateIgnoresPassword` | server/src/utils.rs:11-12 | Only the cookie's id is consulted: changing its password never changes the decision. |
| `Http.EndpointToUri` | app/src/http.rs:6-12 | The URI starts with `http://localhost:3000`, then has one `/`, then the endpoint with one leading slash dropped. The URI ends with the endpoint itself. |
| `Http.EndpointToUriInjective` | app/src/http.rs:9-11 | Two endpoints give the same URI iff they agree after dropping one leading slash. |
| `Http.SingleSlashAtJoin` | app/src/http.rs:9-11 | Unless the endpoint starts with `//`, the join point holds exactly one slash. |
| `Http.ApiMessage` | app/src/http.rs:51-57 | For an object, the message is the rendering of its `error` member, or `Unknown error` if it has none. For any other value it is the rendering of the whole value. It is never empty. |
| `Http.ApiMessageOfServerError` | app/src/http.rs:52-55 | The server's `{"error": text}` body reaches the user as the text escaped and in JSON quotes. |
| `Http.Classify` | app/src/http.rs:45-61 | A status of 400 or more is always an error. It is `Api` with that status and the extracted message iff the body is JSON, and `Deserialization` otherwise. Below 400 the result is the decoded body, or `Deserialization`. |
| `Http.Post` | app/src/http.rs:23-62 | Sends `POST` with the serialised request to `EndpointToUri(endpoint)`. A transport failure, and only that, is a `Network` error. A received reply is sorted by `Classify`. |
| `Http.Get` | app/src/http.rs:64-93 | Sends a body-less `GET` to `EndpointToUri(endpoint)`, and sorts the reply exactly as `Post` does. |
| `Http.NewSessionCookie` | app/src/http.rs:118-131 | `cookie().id`, `cookie().password` and `user_type()` give back the id, password and type it was built from. |

## Left out

- GUI widgets, views, dialogs and the client's date handling are not part of this
  model. They are toolkit glue, and dates use a foreign time library.
- Router setup, socket binding and migrations are not part of this model. The router
  in server/src/main.rs declares no `utils` module and routes only `/books` and `/auth`; the handlers
  are modelled as written all the same.
- The SQL engine is not modelled: transactions, isolation, and the check-then-insert
  race between two concurrent borrows. Each handler runs alone against the tables.
- Storage failures are not modelled: a query or pool error that becomes a 500, an
  `unwrap` panic, or the 404 that `login` returns when its query itself fails.
- `Books.Borrow` requires that the book exists, because the source panics on an
  unknown `book_id`. It also requires the database's key constraints (`Storage.Valid`)
  as its object invariant.
- The foreign keys Borrows.book_id → Books, Borrows.user_id → Users and
  Books.author_id → Authors are not modelled; the migrations that would declare them
  are not part of this model. `Books.BorrowStep` inserts a row for a cookie id with no
  Users row. Such an id is never told `alreadyBorrowed`, so it can take every copy
  (`Books.UnknownUserBorrowsAgain`). With an enforced Borrows.user_id key, the source
  would instead panic at the insert.
- `Books.TimesBorrowed` reads the duplicate check's three-way join as "the user has a
  Users row and holds a Borrows row for the book". The two agree when user ids are
  unique.
- `Books.BorrowDeadline` adds 30 × 86400 seconds. The source adds 30 calendar days in
  local time, which differs by an hour across a daylight-saving change.
- `Storage.NextRowId` follows SQLite's rowid rule: one more than the largest id, or 1.
  Not modelled: AUTOINCREMENT tables, and the random rowid SQLite picks once the
  largest 64-bit id is used. Integers are unbounded, so 64-bit overflow is not
  modelled.
- The Argon2 key derivation is replaced by `Password.DeriveKey`, a fixed polynomial
  digest. The salt is a parameter instead of a random draw.
- `Password.Hash` never fails. A hashing failure, which the source turns into a 500,
  is not modelled.
- `Auth.CreateAccountStep` models the insert failing only when the email is already
  registered (the unique email column). The source reports that failure as a 500,
  not as a conflict.
- Route errors carry only their HTTP status. Their messages are defined in
  `server/src/error.rs`, which is not part of this model.
- `Http.Classify` does not carry the `status` enum of `Error::Api`, which is derived
  from the status code.
- The libsoup transport and the panic on a URI that does not parse are not modelled;
  the reply and the success-body decoder are parameters.
- JSON numbers are integers, and an object's members keep their stored order;
  serde_json's default map sorts keys. Floats and key sorting are not modelled.
- `Schema.Book` carries the `canBeBorrowed` flag that the handler fills in. The schema
  struct in `bd-schema/src/books.rs` lacks that field. The `language` column is read
  but not returned.
- Two behaviours follow the code, although a reader might expect otherwise:
  - a second borrow of a book's last copy replies `alreadyBorrowed = false` (see
    `Books.BorrowTwice`);
  - a duplicate email is a 500, not a conflict.
