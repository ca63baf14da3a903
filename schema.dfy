/** The value types shared by the client and the server (the bd-schema crate). */
module Schema {
  import opened Wrappers

  /** `Users.type` of an ordinary account. */
  const NormalUser: int := 1
  /** `Users.type` of a librarian, the only role allowed on privileged routes. */
  const Librarian: int := 2

  /** The credential pair a client re-sends with every request. */
  datatype Cookie = Cookie(id: int, password: string)

  datatype Author = Author(
    authorId: int,
    name: string,
    dateOfBirth: int,
    dateOfDeath: Option<int>,
    description: string)

  /** A catalog entry as the `/books` route replies with it, including the derived
      `canBeBorrowed` flag that the route handler fills in. */
  datatype Book = Book(
    bookId: int,
    title: string,
    author: Author,
    publishDate: int,
    publisher: string,
    count: int,
    synopsis: string,
    canBeBorrowed: bool)

  datatype LoginRequest = LoginRequest(email: string, password: string)

  datatype CreateAccountRequest = CreateAccountRequest(name: string, email: string, password: string)

  datatype LoginReply = LoginReply(id: int, kind: int)

  datatype BorrowRequest = BorrowRequest(cookie: Cookie, bookId: int)

  datatype BorrowReply = BorrowReply(alreadyBorrowed: bool)

  /** One active borrow as its borrower sees it. */
  datatype BorrowedBook = BorrowedBook(borrowId: int, bookId: int, validUntil: int, chaptersRead: int)

  /** One active borrow as the librarian overview lists it. */
  datatype BorrowEntry = BorrowEntry(borrowId: int, bookId: int, userId: int, validUntil: int)
}
