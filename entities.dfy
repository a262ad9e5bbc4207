/**
 * The three persisted entities (User, Category, Note), the fixed note
 * statuses, the HTTP status codes the controllers answer with, and the
 * projections they return to the client.
 */
module Entities {
  import opened Base

  type UserId = nat

  /**
   * A user row. `password` holds the hash, never the plain text.
   * `confirmationToken` is present only while the account waits for
   * confirmation.
   */
  datatype User = User(
    id: UserId,
    email: string,
    password: string,
    isVerified: bool,
    confirmationToken: Option<string>)

  /** A category row, owned by one user. */
  datatype Category = Category(id: nat, owner: UserId, name: string)

  /**
   * A note row. `category` is the id of the linked category, if any.
   * Timestamps are readings of a monotonic clock.
   */
  datatype Note = Note(
    id: nat,
    owner: UserId,
    category: Option<nat>,
    title: string,
    content: string,
    status: string,
    createdAt: nat,
    updatedAt: nat)

  /** What register and login send back about a user: its id and email only. */
  datatype UserView = UserView(id: UserId, email: string)

  /** What the current-user endpoint sends back about a signed-in user. */
  datatype CurrentUserView = CurrentUserView(id: UserId, email: string, isVerified: bool)

  const StatusNew: string := "new"
  const StatusTodo: string := "todo"
  const StatusDone: string := "done"

  /** `Note::STATUSES`, in the order the client lists them. */
  const Statuses: seq<string> := [StatusNew, StatusTodo, StatusDone]

  predicate IsStatus(s: string) {
    s in Statuses
  }

  /** The width of the `email` column; a longer value cannot be stored. */
  const MaxEmailLength: nat := 180

  const HttpOk: int := 200
  const HttpCreated: int := 201
  const HttpBadRequest: int := 400
  const HttpUnauthorized: int := 401
  const HttpForbidden: int := 403
  const HttpNotFound: int := 404
  const HttpConflict: int := 409
  const HttpServerError: int := 500
}
