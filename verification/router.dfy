/**
 The routes of memo/controllers.py that change or read the store, as one request type,
 and a sequence of requests from one browser run one after the other.
 */
module Router {
  import opened Schemas
  import opened Hashing
  import opened Models
  import opened Controllers

  datatype Request =
    | SignupRequest(signup: UserCreate, commit: Commit)   // POST /signup/
    | LoginRequest(login: UserLogin)                      // POST /login
    | LogoutRequest                                       // POST /logout
    | CreateMemoRequest(create: MemoCreate)               // POST /memos/
    | ListMemosRequest                                    // GET /memos/
    | UpdateMemoRequest(memoId: int, update: MemoUpdate)  // PUT /memos/{memo_id}
    | DeleteMemoRequest(memoId: int)                      // DELETE /memos/{memo_id}

  /** The routes behind the session gate. */
  predicate IsMemoRequest(req: Request) {
    req.CreateMemoRequest? || req.ListMemosRequest? || req.UpdateMemoRequest? || req.DeleteMemoRequest?
  }

  /** Dispatches a request to its handler. */
  function Handle(st: State, req: Request, h: Hasher): (r: Reply)
    ensures IsMemoRequest(req) && CurrentUser(st).Err? ==> r == Reply(Failed(CurrentUser(st).error), st)
    ensures !IsMemoRequest(req) ==> r.response != Failed(NotAuthorized) && r.response != Failed(UserNotFound)
    ensures r.response.Failed? ==> r.state == st
    ensures req.ListMemosRequest? || req.LoginRequest? ==> r.state.db == st.db
  {
    match req
    case SignupRequest(data, commit) => Signup(st, data, h, commit)
    case LoginRequest(data) => Login(st, data, h)
    case LogoutRequest => Logout(st)
    case CreateMemoRequest(memo) => CreateMemo(st, memo)
    case ListMemosRequest => ListMemos(st)
    case UpdateMemoRequest(memoId, upd) => UpdateMemo(st, memoId, upd)
    case DeleteMemoRequest(memoId) => DeleteMemo(st, memoId)
  }

}
