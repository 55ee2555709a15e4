/**
 Entities, the abstract store, the browser session and the responses of the handlers.
 The relational tables become two maps: users keyed by username (the column the
 handlers look users up by) and memos keyed by id. The store's auto-increment
 counters are kept explicitly, so that "a fresh id" is a value of the model.
 */
module Models {
  import opened Options

  datatype User = User(id: int, username: string, email: string, hashedPassword: string)

  datatype Memo = Memo(id: int, userId: int, title: string, content: string)

  datatype Db = Db(
    users: map<string, User>,
    memos: map<int, Memo>,
    nextUserId: int,
    nextMemoId: int)

  /** The signed session cookie of one browser: empty, or one logged-in username. */
  type Session = Option<string>

  datatype State = State(db: Db, session: Session)

  /** Empty tables, counters at their first value, an anonymous browser. */
  const Init := State(Db(map[], map[], 1, 1), None)

  /** The failures a handler turns into an HTTP error status. */
  datatype ErrorKind =
    | DuplicateUsername   // signup with a username already present
    | DatabaseError       // signup whose commit failed
    | InvalidCredentials  // login with an unknown user or a wrong password
    | NotAuthorized       // memo operation without a session username
    | UserNotFound        // memo operation whose session username has no user row

  function StatusCode(e: ErrorKind): (code: int)
    ensures 400 <= code < 600
    ensures code == 401 <==> e == InvalidCredentials || e == NotAuthorized
    ensures code == 500 <==> e == DatabaseError
  {
    match e
    case DuplicateUsername => 400
    case DatabaseError => 500
    case InvalidCredentials => 401
    case NotAuthorized => 401
    case UserNotFound => 404
  }

  datatype Result<+T> = Ok(value: T) | Err(error: ErrorKind)

  /** The fixed acknowledgment messages. */
  datatype Ack = SignedUp | LoggedIn | LoggedOut | MemoDeleted

  datatype Response =
    | Acked(ack: Ack)
    | MemoBody(memo: Memo)
    | MemoList(memos: map<int, Memo>)
    | MemoNotFound        // the `{"error": "Memo is not found"}` body, sent with status 200
    | Failed(error: ErrorKind)

  function Status(r: Response): (code: int)
    ensures code != 200 <==> r.Failed?
    ensures r.Failed? ==> code == StatusCode(r.error)
  {
    if r.Failed? then StatusCode(r.error) else 200
  }

  /** What a handler returns: the response and the store and session after the request. */
  datatype Reply = Reply(response: Response, state: State)

  /** The store has a user row with this id. */
  ghost predicate HasUser(db: Db, userId: int) {
    exists n :: n in db.users && db.users[n].id == userId
  }

  /**
   The store's own consistency: each key agrees with the row's column, ids are unique and
   below the auto-increment counters, and every memo's owner is an existing user.
   */
  ghost predicate Valid(db: Db) {
    && (forall n :: n in db.users ==> db.users[n].username == n && db.users[n].id < db.nextUserId)
    && (forall n, n' :: n in db.users && n' in db.users && db.users[n].id == db.users[n'].id ==> n == n')
    && (forall k :: k in db.memos ==> db.memos[k].id == k && k < db.nextMemoId)
    && (forall k :: k in db.memos ==> HasUser(db, db.memos[k].userId))
  }

  /**
   The invariant of the one-browser model: the store is valid and a session username,
   when present, names an existing user (users are never deleted).
   */
  ghost predicate Consistent(st: State) {
    Valid(st.db) && (st.session.Some? ==> st.session.value in st.db.users)
  }

}
