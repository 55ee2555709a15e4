/**
 Every handler keeps the store valid, and keeps a present session username pointing
 at an existing user.
 */
module Invariants {
  import opened Options
  import opened Schemas
  import opened Hashing
  import opened Models
  import opened Controllers
  import opened Router

  lemma SignupPreservesConsistent(st: State, data: UserCreate, h: Hasher, commit: Commit)
    requires Consistent(st)
    ensures Consistent(Signup(st, data, h, commit).state)
  {
    var st' := Signup(st, data, h, commit).state;
    if st' != st {
      assert AddsOnlyUser(st, st', data, h);
      forall k | k in st'.db.memos
        ensures HasUser(st'.db, st'.db.memos[k].userId)
      {
        var n :| n in st.db.users && st.db.users[n].id == st.db.memos[k].userId;
        assert st'.db.users[n].id == st'.db.memos[k].userId;
      }
    }
  }

  lemma CreateMemoPreservesConsistent(st: State, memo: MemoCreate)
    requires Consistent(st)
    ensures Consistent(CreateMemo(st, memo).state)
  {
    var st' := CreateMemo(st, memo).state;
    if CurrentUser(st).Ok? {
      var owner := st.session.value;
      forall k | k in st'.db.memos
        ensures HasUser(st'.db, st'.db.memos[k].userId)
      {
        if k == st.db.nextMemoId {
          assert st'.db.users[owner].id == st'.db.memos[k].userId;
        } else {
          assert HasUser(st.db, st.db.memos[k].userId);
        }
      }
    }
  }

  lemma UpdateMemoPreservesConsistent(st: State, memoId: int, upd: MemoUpdate)
    requires Consistent(st)
    ensures Consistent(UpdateMemo(st, memoId, upd).state)
  {
    var st' := UpdateMemo(st, memoId, upd).state;
    forall k | k in st'.db.memos
      ensures HasUser(st'.db, st'.db.memos[k].userId)
    {
      assert HasUser(st.db, st.db.memos[k].userId);
    }
  }

  lemma DeleteMemoPreservesConsistent(st: State, memoId: int)
    requires Consistent(st)
    ensures Consistent(DeleteMemo(st, memoId).state)
  {
    var st' := DeleteMemo(st, memoId).state;
    forall k | k in st'.db.memos
      ensures HasUser(st'.db, st'.db.memos[k].userId)
    {
      assert HasUser(st.db, st.db.memos[k].userId);
    }
  }

  lemma HandlePreservesConsistent(st: State, req: Request, h: Hasher)
    requires Consistent(st)
    ensures Consistent(Handle(st, req, h).state)
  {
    match req
    case SignupRequest(data, commit) => SignupPreservesConsistent(st, data, h, commit);
    case LoginRequest(data) =>
    case LogoutRequest =>
    case CreateMemoRequest(memo) => CreateMemoPreservesConsistent(st, memo);
    case ListMemosRequest =>
    case UpdateMemoRequest(memoId, upd) => UpdateMemoPreservesConsistent(st, memoId, upd);
    case DeleteMemoRequest(memoId) => DeleteMemoPreservesConsistent(st, memoId);
  }

}
