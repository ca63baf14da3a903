/** The catalog and borrowing handlers (server/src/books.rs) over in-memory tables. */
module Books {
  import opened Wrappers
  import opened Schema
  import opened Storage
  import opened Utils

  const SecondsPerDay: int := 86400
  /** The length of a new borrow, in days. */
  const BorrowDays: int := 30

  /** The derived availability of a book: more copies than active borrows. */
  predicate CanBeBorrowed(book: BookRow, borrows: seq<BorrowRow>) {
    book.count > CountBorrowsOf(borrows, book.bookId)
  }

  /** One row of the `/books` join, as the handler builds it from a book and its author. */
  function BookView(book: BookRow, author: AuthorRow, borrows: seq<BorrowRow>): Book {
    Book(book.bookId, book.title,
         Author(author.authorId, author.name, author.dateOfBirth, author.dateOfDeath, author.description),
         book.publishDate, book.publisher, book.count, book.synopsis,
         CanBeBorrowed(book, borrows))
  }

  /** The rows `Books b JOIN Authors a ON b.author_id = a.author_id` yields for one book. */
  function JoinAuthors(book: BookRow, authors: seq<AuthorRow>, borrows: seq<BorrowRow>): (r: seq<Book>)
    ensures forall x :: x in r ==>
              exists j :: 0 <= j < |authors| && authors[j].authorId == book.authorId &&
                          x == BookView(book, authors[j], borrows)
    ensures forall j :: 0 <= j < |authors| && authors[j].authorId == book.authorId ==>
              BookView(book, authors[j], borrows) in r
    ensures AuthorsValid(authors) ==> |r| <= 1
  {
    if authors == [] then []
    else
      var tail := JoinAuthors(book, authors[1..], borrows);
      assert tail != [] ==> tail[0] in tail;
      (if authors[0].authorId == book.authorId then [BookView(book, authors[0], borrows)] else [])
      + tail
  }

  /** `GET /books`: every book joined with its author, with the derived availability. */
  function Books(books: seq<BookRow>, authors: seq<AuthorRow>, borrows: seq<BorrowRow>): (r: seq<Book>)
    ensures forall x :: x in r ==>
              exists i, j :: 0 <= i < |books| && 0 <= j < |authors| && books[i].authorId == authors[j].authorId &&
                             x == BookView(books[i], authors[j], borrows)
    ensures forall i, j :: 0 <= i < |books| && 0 <= j < |authors| && books[i].authorId == authors[j].authorId ==>
              BookView(books[i], authors[j], borrows) in r
    ensures forall x :: x in r ==> (x.canBeBorrowed <==> x.count > CountBorrowsOf(borrows, x.bookId))
  {
    if books == [] then []
    else
      var head := JoinAuthors(books[0], authors, borrows);
      var tail := Books(books[1..], authors, borrows);
      head + tail
  }

  /** With book and author ids unique, `GET /books` lists each book at most once. */
  lemma {:induction false} BooksListsEachBookOnce(books: seq<BookRow>, authors: seq<AuthorRow>, borrows: seq<BorrowRow>)
    requires BooksValid(books) && AuthorsValid(authors)
    ensures forall k, l :: 0 <= k < l < |Books(books, authors, borrows)| ==>
              Books(books, authors, borrows)[k].bookId != Books(books, authors, borrows)[l].bookId
  {
    if books != [] {
      var head := JoinAuthors(books[0], authors, borrows);
      var tail := Books(books[1..], authors, borrows);
      BooksListsEachBookOnce(books[1..], authors, borrows);
      forall x | x in tail
        ensures x.bookId != books[0].bookId
      {
        var i, j :| 0 <= i < |books[1..]| && 0 <= j < |authors| && books[1..][i].authorId == authors[j].authorId &&
                    x == BookView(books[1..][i], authors[j], borrows);
        assert books[1..][i] == books[i + 1];
      }
      PrependOneBook(head, tail, books[0].bookId);
    }
  }

  lemma PrependOneBook(head: seq<Book>, tail: seq<Book>, bookId: int)
    requires |head| <= 1 && forall x :: x in head ==> x.bookId == bookId
    requires forall x :: x in tail ==> x.bookId != bookId
    requires forall k, l :: 0 <= k < l < |tail| ==> tail[k].bookId != tail[l].bookId
    ensures forall k, l :: 0 <= k < l < |head + tail| ==> (head + tail)[k].bookId != (head + tail)[l].bookId
  {
    if head != [] {
      assert head + tail == [head[0]] + tail;
      assert head[0] in head;
    }
  }

  /** `GET /authors`: the id and name of every author, the other fields left at defaults. */
  function Authors(authors: seq<AuthorRow>): (r: seq<Author>)
    ensures |r| == |authors|
    ensures forall i :: 0 <= i < |authors| ==>
              r[i] == Author(authors[i].authorId, authors[i].name, 0, None, "")
  {
    if authors == [] then []
    else [Author(authors[0].authorId, authors[0].name, 0, None, "")] + Authors(authors[1..])
  }

  function BorrowedView(row: BorrowRow, data: BorrowData): BorrowedBook {
    BorrowedBook(row.borrowId, row.bookId, data.validUntil, data.chaptersRead)
  }

  /** `/borrowed-by/:user_id`: the user's Borrows rows joined with their BorrowData. */
  function BorrowedBy(userId: int, borrows: seq<BorrowRow>, borrowData: map<int, BorrowData>): (r: seq<BorrowedBook>)
    ensures |r| <= |borrows|
    ensures forall x :: x in r ==>
              exists i :: 0 <= i < |borrows| && borrows[i].userId == userId && borrows[i].borrowId in borrowData &&
                          x == BorrowedView(borrows[i], borrowData[borrows[i].borrowId])
    ensures forall i :: 0 <= i < |borrows| && borrows[i].userId == userId && borrows[i].borrowId in borrowData ==>
              BorrowedView(borrows[i], borrowData[borrows[i].borrowId]) in r
    ensures BorrowIdsUnique(borrows) ==> forall k, l :: 0 <= k < l < |r| ==> r[k].borrowId != r[l].borrowId
  {
    if borrows == [] then []
    else
      var row := borrows[0];
      var tail := BorrowedBy(userId, borrows[1..], borrowData);
      assert BorrowIdsUnique(borrows) ==> forall x :: x in tail ==> x.borrowId != row.borrowId;
      if row.userId == userId && row.borrowId in borrowData then
        [BorrowedView(row, borrowData[row.borrowId])] + tail
      else tail
  }

  function EntryView(row: BorrowRow, data: BorrowData): BorrowEntry {
    BorrowEntry(row.borrowId, row.bookId, row.userId, data.validUntil)
  }

  /** `Borrows b JOIN BorrowData d ON b.borrow_id = d.borrow_id`, as the librarian
      overview lists it. */
  function JoinBorrows(borrows: seq<BorrowRow>, borrowData: map<int, BorrowData>): (r: seq<BorrowEntry>)
    ensures |r| <= |borrows|
    ensures forall x :: x in r ==>
              exists i :: 0 <= i < |borrows| && borrows[i].borrowId in borrowData &&
                          x == EntryView(borrows[i], borrowData[borrows[i].borrowId])
    ensures forall i :: 0 <= i < |borrows| && borrows[i].borrowId in borrowData ==>
              EntryView(borrows[i], borrowData[borrows[i].borrowId]) in r
    ensures BorrowIdsUnique(borrows) ==> forall k, l :: 0 <= k < l < |r| ==> r[k].borrowId != r[l].borrowId
  {
    if borrows == [] then []
    else
      var row := borrows[0];
      var tail := JoinBorrows(borrows[1..], borrowData);
      assert BorrowIdsUnique(borrows) ==> forall x :: x in tail ==> x.borrowId != row.borrowId;
      if row.borrowId in borrowData then
        [EntryView(row, borrowData[row.borrowId])] + tail
      else tail
  }

  /** `/borrows`: the librarian gate first, then every active borrow. A caller who is
      not a librarian gets the gate's error whatever the borrow tables hold. */
  function Borrows(users: seq<UserRow>, borrows: seq<BorrowRow>, borrowData: map<int, BorrowData>, cookie: Cookie): (r: Result<seq<BorrowEntry>, RouteError>)
    ensures r.Ok? <==> FindUser(users, cookie.id).Some? && FindUser(users, cookie.id).value.kind == Librarian
    ensures r.Err? ==> r.error == VerifyUserIsLibrarian(users, cookie).error
    ensures r.Ok? ==> r.value == JoinBorrows(borrows, borrowData)
  {
    match VerifyUserIsLibrarian(users, cookie)
    case Err(e) => Err(e)
    case Ok(_) => Ok(JoinBorrows(borrows, borrowData))
  }

  /** The deadline of a borrow made at `now`: thirty days of 86400 seconds later. */
  function BorrowDeadline(now: int): int {
    now + BorrowDays * SecondsPerDay
  }

  /** The duplicate check: the count of `Books JOIN Borrows JOIN Users` rows for this
      book and user. With user ids unique, that is the user's Borrows rows of the book
      when the user has a Users row, and none otherwise. */
  function TimesBorrowed(users: seq<UserRow>, borrows: seq<BorrowRow>, bookId: int, userId: int): (n: nat)
    ensures FindUser(users, userId).None? ==> n == 0
    ensures FindUser(users, userId).Some? ==> n == CountBorrowsBy(borrows, bookId, userId)
    ensures n > 0 <==> FindUser(users, userId).Some? &&
                       exists i :: 0 <= i < |borrows| && borrows[i].bookId == bookId && borrows[i].userId == userId
  {
    if FindUser(users, userId).Some? then CountBorrowsBy(borrows, bookId, userId) else 0
  }

  /** The id the Borrows insert receives. */
  function NewBorrowId(t: Tables): int {
    NextRowId(BorrowIds(t.borrows))
  }

  /** Whether `borrow` inserts: the book is available and the user does not hold it. */
  predicate Inserts(t: Tables, request: BorrowRequest)
    requires FindBook(t.books, request.bookId).Some?
  {
    CanBeBorrowed(FindBook(t.books, request.bookId).value, t.borrows) &&
    TimesBorrowed(t.users, t.borrows, request.bookId, request.cookie.id) == 0
  }

  /** The `/borrow` transition at time `now`: the tables afterwards and the reply. */
  function BorrowStep(t: Tables, request: BorrowRequest, now: int): (r: (Tables, BorrowReply))
    requires FindBook(t.books, request.bookId).Some?
    ensures r.1.alreadyBorrowed <==>
              CanBeBorrowed(FindBook(t.books, request.bookId).value, t.borrows) &&
              FindUser(t.users, request.cookie.id).Some? &&
              exists i :: 0 <= i < |t.borrows| && t.borrows[i].bookId == request.bookId && t.borrows[i].userId == request.cookie.id
    ensures !Inserts(t, request) ==> r.0 == t
    ensures Inserts(t, request) ==>
              !r.1.alreadyBorrowed &&
              !HasBorrow(t.borrows, NewBorrowId(t)) &&
              r.0 == t.(borrows := t.borrows + [BorrowRow(NewBorrowId(t), request.bookId, request.cookie.id)],
                        borrowData := t.borrowData[NewBorrowId(t) := BorrowData(BorrowDeadline(now), 0)])
  {
    var book := FindBook(t.books, request.bookId).value;
    if !CanBeBorrowed(book, t.borrows) then (t, BorrowReply(false))
    else if TimesBorrowed(t.users, t.borrows, request.bookId, request.cookie.id) >= 1 then (t, BorrowReply(true))
    else
      var borrowId := NewBorrowId(t);
      (t.(borrows := t.borrows + [BorrowRow(borrowId, request.bookId, request.cookie.id)],
          borrowData := t.borrowData[borrowId := BorrowData(BorrowDeadline(now), 0)]),
       BorrowReply(false))
  }

  /** The `/borrow` handler. Inside one transaction it checks availability, then the
      duplicate, and only then inserts the Borrows row and its BorrowData row; the early
      reply for a duplicate abandons the transaction before anything is written. */
  method Borrow(db: Database, request: BorrowRequest, now: int) returns (reply: BorrowReply)
    requires Valid(db.Contents())
    requires FindBook(db.books, request.bookId).Some?
    modifies db`borrows, db`borrowData
    ensures (db.Contents(), reply) == BorrowStep(old(db.Contents()), request, now)
    ensures Valid(db.Contents())
    ensures old(Linked(db.Contents())) ==> Linked(db.Contents())
  {
    ghost var before := db.Contents();
    var book := FindBook(db.books, request.bookId).value;
    if CanBeBorrowed(book, db.borrows) {
      if TimesBorrowed(db.users, db.borrows, request.bookId, request.cookie.id) >= 1 {
        return BorrowReply(true);
      }
      var validUntil := BorrowDeadline(now);
      var borrowId := NextRowId(BorrowIds(db.borrows));
      db.borrows := db.borrows + [BorrowRow(borrowId, request.bookId, request.cookie.id)];
      db.borrowData := db.borrowData[borrowId := BorrowData(validUntil, 0)];
    }
    reply := BorrowReply(false);
    BorrowKeepsValid(before, request, now);
    if Linked(before) {
      BorrowKeepsLinked(before, request, now);
    }
  }

  /** `borrow` keeps the key constraints: the new borrow id is fresh in both tables. */
  lemma BorrowKeepsValid(t: Tables, request: BorrowRequest, now: int)
    requires Valid(t)
    requires FindBook(t.books, request.bookId).Some?
    ensures Valid(BorrowStep(t, request, now).0)
  {
    if Inserts(t, request) {
      var t' := BorrowStep(t, request, now).0;
      var id := NewBorrowId(t);
      assert forall i :: 0 <= i < |t.borrows| ==> t'.borrows[i] == t.borrows[i];
      forall key | key in t'.borrowData
        ensures HasBorrow(t'.borrows, key)
      {
        if key == id {
          assert t'.borrows[|t.borrows|].borrowId == id;
        } else {
          var i :| 0 <= i < |t.borrows| && t.borrows[i].borrowId == key;
          assert t'.borrows[i].borrowId == key;
        }
      }
    }
  }

  /** `borrow` keeps every Borrows row linked to its BorrowData row. */
  lemma BorrowKeepsLinked(t: Tables, request: BorrowRequest, now: int)
    requires Linked(t)
    requires FindBook(t.books, request.bookId).Some?
    ensures Linked(BorrowStep(t, request, now).0)
  {
  }

  /** After `borrow`, the active-borrow count of the borrowed book has grown by one
      exactly when a row was inserted, and every other book's count is unchanged. */
  lemma BorrowCounts(t: Tables, request: BorrowRequest, now: int, bookId: int)
    requires FindBook(t.books, request.bookId).Some?
    ensures CountBorrowsOf(BorrowStep(t, request, now).0.borrows, bookId) ==
            CountBorrowsOf(t.borrows, bookId) + (if Inserts(t, request) && bookId == request.bookId then 1 else 0)
  {
    if Inserts(t, request) {
      CountBorrowsOfAppend(t.borrows, BorrowRow(NewBorrowId(t), request.bookId, request.cookie.id), bookId);
    }
  }

  /** Borrowing the one copy of a book nobody holds succeeds, and the catalog listed
      afterwards shows that book as no longer borrowable. */
  lemma BorrowTakesLastCopy(t: Tables, request: BorrowRequest, now: int)
    requires Valid(t)
    requires FindBook(t.books, request.bookId).Some?
    requires FindBook(t.books, request.bookId).value.count == 1
    requires CountBorrowsOf(t.borrows, request.bookId) == 0
    ensures var r := BorrowStep(t, request, now);
            !r.1.alreadyBorrowed && |r.0.borrows| == |t.borrows| + 1 &&
            forall x :: x in Books(r.0.books, r.0.authors, r.0.borrows) && x.bookId == request.bookId ==> !x.canBeBorrowed
  {
    var book := FindBook(t.books, request.bookId).value;
    assert CountBorrowsBy(t.borrows, request.bookId, request.cookie.id) == 0;
    var r := BorrowStep(t, request, now);
    BorrowCounts(t, request, now, request.bookId);
    assert CountBorrowsOf(r.0.borrows, request.bookId) == 1;
  }

  /** Borrowing the same book twice: the second call changes nothing, and replies
      `alreadyBorrowed` only when copies remain; once the last copy is out, the reply
      is `false` although the user holds the book. */
  lemma BorrowTwice(t: Tables, request: BorrowRequest, now: int, later: int)
    requires FindBook(t.books, request.bookId).Some?
    requires FindUser(t.users, request.cookie.id).Some?
    requires Inserts(t, request)
    ensures var t1 := BorrowStep(t, request, now).0;
            var r2 := BorrowStep(t1, request, later);
            r2.0 == t1 &&
            r2.1.alreadyBorrowed == CanBeBorrowed(FindBook(t.books, request.bookId).value, t1.borrows)
  {
    var t1 := BorrowStep(t, request, now).0;
    var row := BorrowRow(NewBorrowId(t), request.bookId, request.cookie.id);
    assert t1.borrows[|t.borrows|] == row;
    assert CountBorrowsBy(t1.borrows, request.bookId, request.cookie.id) != 0;
  }

  /** Adding a row with a fresh id and its BorrowData extends a user's borrowed list by
      that borrow, when it is theirs, and leaves it unchanged otherwise. */
  /** A caller whose cookie id has no Users row is never told `alreadyBorrowed`: the
      same request repeated inserts one more row as long as a copy is left. */
  lemma UnknownUserBorrowsAgain(t: Tables, request: BorrowRequest, now: int, later: int)
    requires FindBook(t.books, request.bookId).Some?
    requires FindUser(t.users, request.cookie.id).None?
    requires Inserts(t, request)
    ensures var t1 := BorrowStep(t, request, now).0;
            var r2 := BorrowStep(t1, request, later);
            !r2.1.alreadyBorrowed &&
            (CanBeBorrowed(FindBook(t.books, request.bookId).value, t1.borrows) ==>
               |r2.0.borrows| == |t.borrows| + 2 &&
               r2.0.borrows[|t.borrows|].userId == request.cookie.id &&
               r2.0.borrows[|t.borrows| + 1].userId == request.cookie.id)
  {
  }

  lemma {:induction false} BorrowedByAppend(userId: int, borrows: seq<BorrowRow>, borrowData: map<int, BorrowData>, row: BorrowRow, data: BorrowData)
    requires !HasBorrow(borrows, row.borrowId)
    ensures BorrowedBy(userId, borrows + [row], borrowData[row.borrowId := data]) ==
            BorrowedBy(userId, borrows, borrowData) + (if row.userId == userId then [BorrowedView(row, data)] else [])
  {
    if borrows != [] {
      assert (borrows + [row])[1..] == borrows[1..] + [row];
      BorrowedByAppend(userId, borrows[1..], borrowData, row, data);
      assert borrows[0].borrowId != row.borrowId;
    }
  }

  /** Adding a row with a fresh id and its BorrowData extends the librarian overview by
      exactly that borrow. */
  lemma {:induction false} JoinBorrowsAppend(borrows: seq<BorrowRow>, borrowData: map<int, BorrowData>, row: BorrowRow, data: BorrowData)
    requires !HasBorrow(borrows, row.borrowId)
    ensures JoinBorrows(borrows + [row], borrowData[row.borrowId := data]) ==
            JoinBorrows(borrows, borrowData) + [EntryView(row, data)]
  {
    if borrows != [] {
      assert (borrows + [row])[1..] == borrows[1..] + [row];
      JoinBorrowsAppend(borrows[1..], borrowData, row, data);
      assert borrows[0].borrowId != row.borrowId;
    }
  }

  /** A successful `borrow` shows up in the borrower's list, due thirty days on with no
      chapters read, and in nobody else's; the librarian overview gains the same borrow. */
  lemma BorrowShowsInLists(t: Tables, request: BorrowRequest, now: int, userId: int)
    requires FindBook(t.books, request.bookId).Some?
    requires Inserts(t, request)
    ensures var t' := BorrowStep(t, request, now).0;
            var made := BorrowRow(NewBorrowId(t), request.bookId, request.cookie.id);
            var data := BorrowData(BorrowDeadline(now), 0);
            BorrowedBy(userId, t'.borrows, t'.borrowData) ==
              BorrowedBy(userId, t.borrows, t.borrowData) +
              (if userId == request.cookie.id then [BorrowedBook(made.borrowId, request.bookId, BorrowDeadline(now), 0)] else []) &&
            JoinBorrows(t'.borrows, t'.borrowData) ==
              JoinBorrows(t.borrows, t.borrowData) + [BorrowEntry(made.borrowId, request.bookId, request.cookie.id, BorrowDeadline(now))]
  {
    var made := BorrowRow(NewBorrowId(t), request.bookId, request.cookie.id);
    var data := BorrowData(BorrowDeadline(now), 0);
    BorrowedByAppend(userId, t.borrows, t.borrowData, made, data);
    JoinBorrowsAppend(t.borrows, t.borrowData, made, data);
  }
}
