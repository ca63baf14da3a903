/** The librarian gate every privileged server route passes first (server/src/utils.rs),
    and the error reply the routes answer with. */
module Utils {
  import opened Wrappers
  import opened Schema
  import opened Storage

  const BadRequest: int := 400
  const Unauthorized: int := 401
  const Forbidden: int := 403
  const NotFound: int := 404
  const InternalServerError: int := 500

  /** The error reply of a route, reduced to its HTTP status. */
  datatype RouteError = RouteError(status: int)

  /** Looks the caller's role up by the cookie's id and lets only a librarian through.
      A missing Users row is an internal error; any role other than librarian is
      forbidden. */
  function VerifyUserIsLibrarian(users: seq<UserRow>, cookie: Cookie): (r: Result<(), RouteError>)
    ensures r.Ok? <==> FindUser(users, cookie.id).Some? && FindUser(users, cookie.id).value.kind == Librarian
    ensures r == Err(RouteError(InternalServerError)) <==> FindUser(users, cookie.id).None?
    ensures r == Err(RouteError(Forbidden)) <==>
              FindUser(users, cookie.id).Some? && FindUser(users, cookie.id).value.kind != Librarian
  {
    match FindUser(users, cookie.id)
    case None => Err(RouteError(InternalServerError))
    case Some(requester) =>
      if requester.kind != Librarian then Err(RouteError(Forbidden)) else Ok(())
  }

  /** Stated over the table itself (user ids being the primary key): the gate opens
      exactly for a caller whose row has the librarian type, a normal user is
      forbidden, and an id with no row is an internal error. */
  lemma LibrarianGateByTable(users: seq<UserRow>, cookie: Cookie)
    requires UsersValid(users)
    ensures VerifyUserIsLibrarian(users, cookie).Ok? <==>
              exists i :: 0 <= i < |users| && users[i].userId == cookie.id && users[i].kind == Librarian
    ensures (exists i :: 0 <= i < |users| && users[i].userId == cookie.id && users[i].kind == NormalUser) ==>
              VerifyUserIsLibrarian(users, cookie) == Err(RouteError(Forbidden))
    ensures (forall i :: 0 <= i < |users| ==> users[i].userId != cookie.id) ==>
              VerifyUserIsLibrarian(users, cookie) == Err(RouteError(InternalServerError))
  {
  }

  /** Only the cookie's id is consulted: its password plays no part in the decision. */
  lemma GateIgnoresPassword(users: seq<UserRow>, cookie: Cookie, password: string)
    ensures VerifyUserIsLibrarian(users, cookie) == VerifyUserIsLibrarian(users, Cookie(cookie.id, password))
  {
  }
}
