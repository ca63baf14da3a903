/** The SQL tables the server handlers read and write, held in memory: one sequence of
    rows per table (in the order a full scan returns them) and, for BorrowData, a map
    from `borrow_id` to the row's other columns. */
module Storage {
  import opened Wrappers
  import Password

  datatype UserRow = UserRow(userId: int, name: string, kind: int, email: string, password: Password.Stored)

  datatype AuthorRow = AuthorRow(
    authorId: int,
    name: string,
    dateOfBirth: int,
    dateOfDeath: Option<int>,
    description: string)

  datatype BookRow = BookRow(
    bookId: int,
    title: string,
    authorId: int,
    publishDate: int,
    publisher: string,
    count: int,
    synopsis: string,
    language: string)

  datatype BorrowRow = BorrowRow(borrowId: int, bookId: int, userId: int)

  /** The BorrowData columns other than its key `borrow_id`. */
  datatype BorrowData = BorrowData(validUntil: int, chaptersRead: int)

  datatype Tables = Tables(
    users: seq<UserRow>,
    authors: seq<AuthorRow>,
    books: seq<BookRow>,
    borrows: seq<BorrowRow>,
    borrowData: map<int, BorrowData>)

  /** Users: `user_id` is the primary key and `email` is unique. */
  predicate UsersValid(users: seq<UserRow>) {
    forall i, j :: 0 <= i < j < |users| ==> users[i].userId != users[j].userId && users[i].email != users[j].email
  }

  predicate AuthorsValid(authors: seq<AuthorRow>) {
    forall i, j :: 0 <= i < j < |authors| ==> authors[i].authorId != authors[j].authorId
  }

  predicate BooksValid(books: seq<BookRow>) {
    forall i, j :: 0 <= i < j < |books| ==> books[i].bookId != books[j].bookId
  }

  predicate HasBorrow(borrows: seq<BorrowRow>, borrowId: int) {
    exists i :: 0 <= i < |borrows| && borrows[i].borrowId == borrowId
  }

  /** Borrows: `borrow_id` is the primary key, and every BorrowData row refers to a
      Borrows row (the foreign key `BorrowData.borrow_id`). */
  predicate BorrowsValid(borrows: seq<BorrowRow>, borrowData: map<int, BorrowData>) {
    BorrowIdsUnique(borrows) && (forall id :: id in borrowData ==> HasBorrow(borrows, id))
  }

  predicate BorrowIdsUnique(borrows: seq<BorrowRow>) {
    forall i, j :: 0 <= i < j < |borrows| ==> borrows[i].borrowId != borrows[j].borrowId
  }

  /** The key constraints of the schema, which the database itself maintains. */
  predicate Valid(t: Tables) {
    UsersValid(t.users) && AuthorsValid(t.authors) && BooksValid(t.books) &&
    BorrowsValid(t.borrows, t.borrowData)
  }

  /** The link the borrowing handler maintains and no constraint enforces: every Borrows
      row has its BorrowData row. Together with `BorrowsValid` the link is one to one. */
  predicate Linked(t: Tables) {
    forall i :: 0 <= i < |t.borrows| ==> t.borrows[i].borrowId in t.borrowData
  }

  /** The first row a `SELECT ... WHERE <key> = ?` over `rows` fetches: the first one
      `matches` accepts, or none. */
  function FirstMatch<T>(rows: seq<T>, matches: T -> bool): (r: Option<T>)
    ensures r.Some? ==> r.value in rows && matches(r.value)
    ensures r.None? <==> forall i :: 0 <= i < |rows| ==> !matches(rows[i])
  {
    if rows == [] then None
    else if matches(rows[0]) then Some(rows[0])
    else FirstMatch(rows[1..], matches)
  }

  /** `SELECT ... FROM Users WHERE user_id = ?`. */
  function FindUser(users: seq<UserRow>, userId: int): (r: Option<UserRow>)
    ensures r.Some? ==> r.value in users && r.value.userId == userId
    ensures r.None? <==> forall i :: 0 <= i < |users| ==> users[i].userId != userId
  {
    FirstMatch(users, (u: UserRow) => u.userId == userId)
  }

  /** `SELECT ... FROM Users WHERE email = ?`. */
  function FindUserByEmail(users: seq<UserRow>, email: string): (r: Option<UserRow>)
    ensures r.Some? ==> r.value in users && r.value.email == email
    ensures r.None? <==> forall i :: 0 <= i < |users| ==> users[i].email != email
  {
    FirstMatch(users, (u: UserRow) => u.email == email)
  }

  /** `SELECT ... FROM Books WHERE book_id = ?`. */
  function FindBook(books: seq<BookRow>, bookId: int): (r: Option<BookRow>)
    ensures r.Some? ==> r.value in books && r.value.bookId == bookId
    ensures r.None? <==> forall i :: 0 <= i < |books| ==> books[i].bookId != bookId
  {
    FirstMatch(books, (b: BookRow) => b.bookId == bookId)
  }

  /** `SELECT COUNT(*) FROM Borrows WHERE book_id = ?`: the active borrows of a book. */
  function CountBorrowsOf(borrows: seq<BorrowRow>, bookId: int): (n: nat)
    ensures n <= |borrows|
    ensures n == 0 <==> forall i :: 0 <= i < |borrows| ==> borrows[i].bookId != bookId
  {
    if borrows == [] then 0
    else (if borrows[0].bookId == bookId then 1 else 0) + CountBorrowsOf(borrows[1..], bookId)
  }

  /** The number of Borrows rows of one book held by one user. */
  function CountBorrowsBy(borrows: seq<BorrowRow>, bookId: int, userId: int): (n: nat)
    ensures n <= CountBorrowsOf(borrows, bookId)
    ensures n == 0 <==> forall i :: 0 <= i < |borrows| ==> borrows[i].bookId != bookId || borrows[i].userId != userId
  {
    if borrows == [] then 0
    else
      (if borrows[0].bookId == bookId && borrows[0].userId == userId then 1 else 0)
      + CountBorrowsBy(borrows[1..], bookId, userId)
  }

  /** Appending a row adds one to its book's count and leaves every other count alone. */
  lemma {:induction false} CountBorrowsOfAppend(borrows: seq<BorrowRow>, row: BorrowRow, bookId: int)
    ensures CountBorrowsOf(borrows + [row], bookId) == CountBorrowsOf(borrows, bookId) + (if row.bookId == bookId then 1 else 0)
  {
    if borrows != [] {
      assert (borrows + [row])[1..] == borrows[1..] + [row];
      CountBorrowsOfAppend(borrows[1..], row, bookId);
    }
  }

  function MaxOf(ids: seq<int>): (m: int)
    requires |ids| > 0
    ensures forall i :: 0 <= i < |ids| ==> ids[i] <= m
    ensures m in ids
  {
    if |ids| == 1 then ids[0]
    else
      var rest := MaxOf(ids[1..]);
      if ids[0] > rest then ids[0] else rest
  }

  /** The rowid SQLite gives an inserted row when none is supplied: one more than the
      largest in the table, or 1 in an empty table. It is never an existing id. */
  function NextRowId(ids: seq<int>): (id: int)
    ensures forall i :: 0 <= i < |ids| ==> ids[i] < id
    ensures |ids| == 0 ==> id == 1
    ensures |ids| > 0 ==> id - 1 in ids
  {
    if |ids| == 0 then 1 else MaxOf(ids) + 1
  }

  function UserIds(users: seq<UserRow>): (ids: seq<int>)
    ensures |ids| == |users|
    ensures forall i :: 0 <= i < |users| ==> ids[i] == users[i].userId
  {
    seq(|users|, i requires 0 <= i < |users| => users[i].userId)
  }

  function BorrowIds(borrows: seq<BorrowRow>): (ids: seq<int>)
    ensures |ids| == |borrows|
    ensures forall i :: 0 <= i < |borrows| ==> ids[i] == borrows[i].borrowId
  {
    seq(|borrows|, i requires 0 <= i < |borrows| => borrows[i].borrowId)
  }

  /** The database the handlers share: one field per table, reassigned by the handlers
      that insert rows. */
  class Database {
    var users: seq<UserRow>
    var authors: seq<AuthorRow>
    var books: seq<BookRow>
    var borrows: seq<BorrowRow>
    var borrowData: map<int, BorrowData>

    constructor (initial: Tables)
      ensures Contents() == initial
    {
      users := initial.users;
      authors := initial.authors;
      books := initial.books;
      borrows := initial.borrows;
      borrowData := initial.borrowData;
    }

    /** The tables as values. */
    function Contents(): Tables
      reads this
    {
      Tables(users, authors, books, borrows, borrowData)
    }
  }
}
