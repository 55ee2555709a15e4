/**
 The request handlers of memo/controllers.py, each a pure transition from the state
 before a request to the response and the state after it.
 */
module Controllers {
  import opened Options
  import opened Schemas
  import opened Hashing
  import opened Models

  /** Outcome of the store's commit at signup; the failure is the environment's choice. */
  datatype Commit = Committed | CommitFailed

  /** Signup leaves the memos, the counters of memos and the session alone and adds one user. */
  ghost predicate AddsOnlyUser(st: State, st': State, data: UserCreate, h: Hasher) {
    && st'.session == st.session
    && st'.db.memos == st.db.memos
    && st'.db.nextMemoId == st.db.nextMemoId
    && st'.db.users.Keys == st.db.users.Keys + {data.username}
    && (forall n :: n in st.db.users ==> st'.db.users[n] == st.db.users[n])
    && data.username in st'.db.users
    && st'.db.users[data.username].username == data.username
    && st'.db.users[data.username].email == data.email
    && st'.db.users[data.username].hashedPassword == h.hash(data.password)
    && st'.db.users[data.username].id == st.db.nextUserId
    && st'.db.nextUserId > st.db.nextUserId
  }

  function Signup(st: State, data: UserCreate, h: Hasher, commit: Commit): (r: Reply)
    ensures data.username in st.db.users ==> r == Reply(Failed(DuplicateUsername), st)
    ensures data.username !in st.db.users && commit == CommitFailed ==> r == Reply(Failed(DatabaseError), st)
    ensures r.response == Acked(SignedUp) <==> data.username !in st.db.users && commit == Committed
    ensures r.response == Acked(SignedUp) ==> AddsOnlyUser(st, r.state, data, h)
  {
    if data.username in st.db.users then
      Reply(Failed(DuplicateUsername), st)
    else
      var user := User(st.db.nextUserId, data.username, data.email, h.hash(data.password));
      match commit
      case CommitFailed => Reply(Failed(DatabaseError), st)
      case Committed =>
        var db := st.db.(users := st.db.users[data.username := user], nextUserId := st.db.nextUserId + 1);
        Reply(Acked(SignedUp), st.(db := db))
  }

  function Login(st: State, data: UserLogin, h: Hasher): (r: Reply)
    ensures r.response == Acked(LoggedIn) <==>
              data.username in st.db.users && h.verify(data.password, st.db.users[data.username].hashedPassword)
    ensures r.response != Acked(LoggedIn) ==> r == Reply(Failed(InvalidCredentials), st)
    ensures r.response == Acked(LoggedIn) ==>
              r.state.db == st.db && r.state.session == Some(st.db.users[data.username].username)
    ensures r.response == Acked(LoggedIn) && Valid(st.db) ==> r.state.session == Some(data.username)
  {
    if data.username in st.db.users && h.verify(data.password, st.db.users[data.username].hashedPassword) then
      Reply(Acked(LoggedIn), st.(session := Some(st.db.users[data.username].username)))
    else
      Reply(Failed(InvalidCredentials), st)
  }

  function Logout(st: State): (r: Reply)
    ensures r.response == Acked(LoggedOut)
    ensures r.state.session == None && r.state.db == st.db
  {
    Reply(Acked(LoggedOut), st.(session := None))
  }

  /**
   The gate every memo operation passes first: a session username is required, and it
   must resolve to a user row.
   */
  function CurrentUser(st: State): (r: Result<User>)
    ensures r == Err(NotAuthorized) <==> st.session.None?
    ensures r == Err(UserNotFound) <==> st.session.Some? && st.session.value !in st.db.users
    ensures r.Ok? <==> st.session.Some? && st.session.value in st.db.users
    ensures r.Ok? ==> r.value == st.db.users[st.session.value]
  {
    match st.session
    case None => Err(NotAuthorized)
    case Some(username) =>
      if username in st.db.users then Ok(st.db.users[username]) else Err(UserNotFound)
  }

  /** Ownership-scoped lookup: a memo is found only by its id together with its owner's id. */
  function FindMemo(db: Db, userId: int, memoId: int): (r: Option<Memo>)
    ensures r.Some? <==> memoId in db.memos && db.memos[memoId].userId == userId
    ensures r.Some? ==> r.value == db.memos[memoId]
    ensures r.Some? && Valid(db) ==> r.value.id == memoId && r.value.userId == userId
  {
    if memoId in db.memos && db.memos[memoId].userId == userId then Some(db.memos[memoId]) else None
  }

  function CreateMemo(st: State, memo: MemoCreate): (r: Reply)
    ensures CurrentUser(st).Err? ==> r == Reply(Failed(CurrentUser(st).error), st)
    ensures CurrentUser(st).Ok? ==>
              && r.response.MemoBody?
              && r.response.memo.id == st.db.nextMemoId
              && r.response.memo.userId == CurrentUser(st).value.id
              && r.response.memo.title == memo.title
              && r.response.memo.content == memo.content
              && r.state.db.memos.Keys == st.db.memos.Keys + {r.response.memo.id}
              && r.state.db.memos[r.response.memo.id] == r.response.memo
              && r.state.db.nextMemoId > st.db.nextMemoId
              && r.state.db.nextUserId == st.db.nextUserId
              && r.state.db.users == st.db.users
              && r.state.session == st.session
    ensures CurrentUser(st).Ok? && Valid(st.db) ==>
              && r.response.memo.id !in st.db.memos
              && (forall k :: k in st.db.memos ==> r.state.db.memos[k] == st.db.memos[k])
              && |r.state.db.memos| == |st.db.memos| + 1
  {
    match CurrentUser(st)
    case Err(e) => Reply(Failed(e), st)
    case Ok(user) =>
      var m := Memo(st.db.nextMemoId, user.id, memo.title, memo.content);
      var db := st.db.(memos := st.db.memos[m.id := m], nextMemoId := st.db.nextMemoId + 1);
      Reply(MemoBody(m), st.(db := db))
  }

  function ListMemos(st: State): (r: Reply)
    ensures CurrentUser(st).Err? ==> r == Reply(Failed(CurrentUser(st).error), st)
    ensures r.state == st
    ensures CurrentUser(st).Ok? ==>
              && r.response.MemoList?
              && (forall k :: k in r.response.memos <==>
                                k in st.db.memos && st.db.memos[k].userId == CurrentUser(st).value.id)
              && (forall k :: k in r.response.memos ==> r.response.memos[k] == st.db.memos[k])
  {
    match CurrentUser(st)
    case Err(e) => Reply(Failed(e), st)
    case Ok(user) =>
      Reply(MemoList(map k | k in st.db.memos && st.db.memos[k].userId == user.id :: st.db.memos[k]), st)
  }

  /** Overwrites exactly the fields the update supplies. */
  function ApplyUpdate(m: Memo, u: MemoUpdate): (r: Memo)
    ensures r.id == m.id && r.userId == m.userId
    ensures r.title == (if u.title.Some? then u.title.value else m.title)
    ensures r.content == (if u.content.Some? then u.content.value else m.content)
  {
    var m1 := if u.title.Some? then m.(title := u.title.value) else m;
    if u.content.Some? then m1.(content := u.content.value) else m1
  }

  function UpdateMemo(st: State, memoId: int, upd: MemoUpdate): (r: Reply)
    ensures CurrentUser(st).Err? ==> r == Reply(Failed(CurrentUser(st).error), st)
    ensures CurrentUser(st).Ok? && FindMemo(st.db, CurrentUser(st).value.id, memoId).None? ==>
              r == Reply(MemoNotFound, st)
    ensures CurrentUser(st).Ok? && FindMemo(st.db, CurrentUser(st).value.id, memoId).Some? ==>
              && r.response == MemoBody(ApplyUpdate(st.db.memos[memoId], upd))
              && r.state.db.memos.Keys == st.db.memos.Keys
              && r.state.db.memos[memoId] == r.response.memo
              && (forall k :: k in st.db.memos && k != memoId ==> r.state.db.memos[k] == st.db.memos[k])
              && r.state.db.users == st.db.users
              && r.state.db.nextUserId == st.db.nextUserId
              && r.state.db.nextMemoId == st.db.nextMemoId
              && r.state.session == st.session
  {
    match CurrentUser(st)
    case Err(e) => Reply(Failed(e), st)
    case Ok(user) =>
      match FindMemo(st.db, user.id, memoId)
      case None => Reply(MemoNotFound, st)
      case Some(m) =>
        var m' := ApplyUpdate(m, upd);
        Reply(MemoBody(m'), st.(db := st.db.(memos := st.db.memos[memoId := m'])))
  }

  function DeleteMemo(st: State, memoId: int): (r: Reply)
    ensures CurrentUser(st).Err? ==> r == Reply(Failed(CurrentUser(st).error), st)
    ensures CurrentUser(st).Ok? && FindMemo(st.db, CurrentUser(st).value.id, memoId).None? ==>
              r == Reply(MemoNotFound, st)
    ensures CurrentUser(st).Ok? && FindMemo(st.db, CurrentUser(st).value.id, memoId).Some? ==>
              && r.response == Acked(MemoDeleted)
              && r.state.db.memos.Keys == st.db.memos.Keys - {memoId}
              && (forall k :: k in r.state.db.memos ==> r.state.db.memos[k] == st.db.memos[k])
              && |r.state.db.memos| == |st.db.memos| - 1
              && r.state.db.users == st.db.users
              && r.state.db.nextUserId == st.db.nextUserId
              && r.state.db.nextMemoId == st.db.nextMemoId
              && r.state.session == st.session
  {
    match CurrentUser(st)
    case Err(e) => Reply(Failed(e), st)
    case Ok(user) =>
      match FindMemo(st.db, user.id, memoId)
      case None => Reply(MemoNotFound, st)
      case Some(_) =>
        Reply(Acked(MemoDeleted), st.(db := st.db.(memos := st.db.memos - {memoId})))
  }

}
