/**
 Properties of the handlers that relate several calls: login after signup, the uniform
 login failure, idempotent logout, the session gate, ownership isolation between users,
 partial updates, and the end-to-end memo lifecycle.
 */
module Properties {
  import opened Options
  import opened Schemas
  import opened Hashing
  import opened Models
  import opened Controllers
  import opened Router
  import opened Invariants
  import opened Traces

  /** A successful signup is followed by a successful login with the same credentials. */
  lemma SignupThenLogin(st: State, data: UserCreate, h: Hasher)
    requires data.username !in st.db.users
    requires Accepts(h, data.password)
    ensures var signedUp := Signup(st, data, h, Committed);
            var loggedIn := Login(signedUp.state, UserLogin(data.username, data.password), h);
            && signedUp.response == Acked(SignedUp)
            && loggedIn.response == Acked(LoggedIn)
            && loggedIn.state.session == Some(data.username)
  {
  }

  /** An unknown user and a wrong password get the very same answer and change nothing. */
  lemma LoginFailuresIndistinguishable(st: State, unknown: UserLogin, wrong: UserLogin, h: Hasher)
    requires unknown.username !in st.db.users
    requires wrong.username in st.db.users
    requires !h.verify(wrong.password, st.db.users[wrong.username].hashedPassword)
    ensures Login(st, unknown, h) == Login(st, wrong, h) == Reply(Failed(InvalidCredentials), st)
    ensures Status(Login(st, unknown, h).response) == 401
  {
  }

  /** Logging out twice is the same as logging out once. */
  lemma LogoutIdempotent(st: State)
    ensures Logout(Logout(st).state) == Logout(st)
  {
  }

  /** After a logout, every memo route is refused with 401 and changes nothing. */
  lemma LogoutThenMemoRequestRefused(st: State, req: Request, h: Hasher)
    requires IsMemoRequest(req)
    ensures var out := Logout(st).state;
            Handle(out, req, h) == Reply(Failed(NotAuthorized), out)
  {
  }

  /**
   The session gate: with no session username every memo route answers 401, with an
   unknown session username it answers 404, and in both cases the state is unchanged.
   */
  lemma MemoRequestGate(st: State, req: Request, h: Hasher)
    requires IsMemoRequest(req)
    ensures st.session.None? ==> Handle(st, req, h) == Reply(Failed(NotAuthorized), st)
    ensures st.session.Some? && st.session.value !in st.db.users ==>
              Handle(st, req, h) == Reply(Failed(UserNotFound), st)
    ensures Handle(st, req, h).response.Failed? ==> Handle(st, req, h).state == st
    ensures Handle(st, req, h).response.Failed? <==> CurrentUser(st).Err?
  {
  }

  /** A memo owned by one user is invisible to another: not listed, not updated, not deleted. */
  lemma OwnershipIsolation(st: State, owner: string, other: string, memoId: int, upd: MemoUpdate, h: Hasher)
    requires Valid(st.db)
    requires owner in st.db.users && other in st.db.users && owner != other
    requires memoId in st.db.memos && st.db.memos[memoId].userId == st.db.users[owner].id
    requires st.session == Some(other)
    ensures ListMemos(st).response.MemoList? && memoId !in ListMemos(st).response.memos
    ensures UpdateMemo(st, memoId, upd) == Reply(MemoNotFound, st)
    ensures DeleteMemo(st, memoId) == Reply(MemoNotFound, st)
    ensures Status(UpdateMemo(st, memoId, upd).response) == 200
  {
  }

  /**
   A memo created by one user stays invisible to every other user, whatever requests
   follow: another user's list omits it, and their update or delete of its id is either
   refused by the gate or answered "Memo is not found", with nothing changed.
   */
  lemma {:induction false} IsolationAcrossRequests(
    st: State, memo: MemoCreate, reqs: seq<Request>, h: Hasher, other: string, upd: MemoUpdate)
    requires Consistent(st)
    requires st.session.Some? && st.session.value in st.db.users && st.session.value != other
    ensures var created := CreateMemo(st, memo);
            var id := created.response.memo.id;
            var later := Run(created.state, reqs, h).(session := Some(other));
            && (ListMemos(later).response.MemoList? ==> id !in ListMemos(later).response.memos)
            && (UpdateMemo(later, id, upd).response.Failed? || UpdateMemo(later, id, upd) == Reply(MemoNotFound, later))
            && (DeleteMemo(later, id).response.Failed? || DeleteMemo(later, id) == Reply(MemoNotFound, later))
  {
    var owner := st.session.value;
    var created := CreateMemo(st, memo);
    var id := created.response.memo.id;
    CreateMemoPreservesConsistent(st, memo);
    var end := Run(created.state, reqs, h);
    RunPreservesConsistent(created.state, reqs, h);
    var later := end.(session := Some(other));
    OwnerNeverChanges(created.state, reqs, h, id);
    assert owner in end.db.users && end.db.users[owner] == st.db.users[owner];
    if other in later.db.users {
      assert later.db.users[other].id != later.db.users[owner].id;
      assert FindMemo(later.db, later.db.users[other].id, id).None?;
    }
  }

  /** An update that supplies neither field leaves the memo identical. */
  lemma EmptyUpdateIsIdentity(m: Memo)
    ensures ApplyUpdate(m, MemoUpdate(None, None)) == m
  {
  }

  /** A title-only update keeps the content, a content-only update keeps the title. */
  lemma SingleFieldUpdate(m: Memo, s: string)
    ensures ApplyUpdate(m, MemoUpdate(Some(s), None)) == m.(title := s)
    ensures ApplyUpdate(m, MemoUpdate(None, Some(s))) == m.(content := s)
  {
  }

  /** Applying the same update twice is the same as applying it once. */
  lemma UpdateIdempotent(m: Memo, u: MemoUpdate)
    ensures ApplyUpdate(ApplyUpdate(m, u), u) == ApplyUpdate(m, u)
  {
  }

  /** Once deleted, a memo is not found by a further update or delete. */
  lemma DeleteThenNotFound(st: State, memoId: int, upd: MemoUpdate)
    requires CurrentUser(st).Ok?
    requires FindMemo(st.db, CurrentUser(st).value.id, memoId).Some?
    ensures var gone := DeleteMemo(st, memoId).state;
            && UpdateMemo(gone, memoId, upd) == Reply(MemoNotFound, gone)
            && DeleteMemo(gone, memoId) == Reply(MemoNotFound, gone)
  {
  }

  /**
   The lifecycle of one memo from empty tables: signup, login, create, list, update of
   the content only, delete, and a second delete that no longer finds the memo.
   */
  lemma MemoLifecycle(h: Hasher)
    requires Accepts(h, "pw1")
    ensures var s1 := Signup(Init, UserCreate("alice", "a@x.com", "pw1"), h, Committed);
            var s2 := Login(s1.state, UserLogin("alice", "pw1"), h);
            var s3 := CreateMemo(s2.state, MemoCreate("t", "c"));
            var s4 := ListMemos(s3.state);
            var s5 := UpdateMemo(s3.state, s3.response.memo.id, MemoUpdate(None, Some("c2")));
            var s6 := DeleteMemo(s5.state, s3.response.memo.id);
            var s7 := DeleteMemo(s6.state, s3.response.memo.id);
            && s2.response == Acked(LoggedIn)
            && s3.response.MemoBody?
            && s4.response == MemoList(map[s3.response.memo.id := Memo(s3.response.memo.id, 1, "t", "c")])
            && s5.response == MemoBody(Memo(s3.response.memo.id, 1, "t", "c2"))
            && s6.response == Acked(MemoDeleted)
            && s7.response == MemoNotFound
  {
  }

}
