/**
 Sequences of requests from one browser, starting from empty tables. In every state such
 a sequence reaches, the "user not found" branch of the memo handlers cannot be taken:
 it only guards against a session cookie naming a username that has no user row.
 */
module Traces {
  import opened Options
  import opened Hashing
  import opened Models
  import opened Controllers
  import opened Router
  import opened Invariants

  /** The state after handling `reqs` in order, starting from `st`. */
  function Run(st: State, reqs: seq<Request>, h: Hasher): (r: State)
    ensures st.db.users.Keys <= r.db.users.Keys
    ensures forall n :: n in st.db.users ==> r.db.users[n] == st.db.users[n]
    ensures st.db.nextMemoId <= r.db.nextMemoId
    decreases |reqs|
  {
    if |reqs| == 0 then st
    else
      Run(Handle(st, reqs[0], h).state, reqs[1..], h)
  }

  /** A consistent state stays consistent through any sequence of requests. */
  lemma {:induction false} RunPreservesConsistent(st: State, reqs: seq<Request>, h: Hasher)
    requires Consistent(st)
    ensures Consistent(Run(st, reqs, h))
    decreases |reqs|
  {
    if |reqs| > 0 {
      HandlePreservesConsistent(st, reqs[0], h);
      RunPreservesConsistent(Handle(st, reqs[0], h).state, reqs[1..], h);
    }
  }

  /** No request in a reachable state is answered with "user not found". */
  lemma ReachableNeverUserNotFound(reqs: seq<Request>, h: Hasher, req: Request)
    ensures Handle(Run(Init, reqs, h), req, h).response != Failed(UserNotFound)
  {
    RunPreservesConsistent(Init, reqs, h);
  }

  /** One request never changes the owner of a memo it keeps, and never revives a used id. */
  lemma HandleKeepsOwners(st: State, req: Request, h: Hasher)
    requires Valid(st.db)
    ensures var next := Handle(st, req, h).state;
            && st.db.nextMemoId <= next.db.nextMemoId
            && (forall k :: k in st.db.memos && k in next.db.memos ==> next.db.memos[k].userId == st.db.memos[k].userId)
            && (forall k :: k !in st.db.memos && k < st.db.nextMemoId ==> k !in next.db.memos)
  {
  }

  /** An id below the counter that is not in use stays unused for the rest of the run. */
  lemma {:induction false} FreedIdStaysFree(st: State, reqs: seq<Request>, h: Hasher, k: int)
    requires Consistent(st)
    requires k !in st.db.memos && k < st.db.nextMemoId
    ensures k !in Run(st, reqs, h).db.memos
    decreases |reqs|
  {
    if |reqs| > 0 {
      var next := Handle(st, reqs[0], h).state;
      HandleKeepsOwners(st, reqs[0], h);
      HandlePreservesConsistent(st, reqs[0], h);
      FreedIdStaysFree(next, reqs[1..], h, k);
    }
  }

  /** Whatever requests follow, a memo that still exists still has its original owner. */
  lemma {:induction false} OwnerNeverChanges(st: State, reqs: seq<Request>, h: Hasher, k: int)
    requires Consistent(st)
    requires k in st.db.memos
    ensures k in Run(st, reqs, h).db.memos ==> Run(st, reqs, h).db.memos[k].userId == st.db.memos[k].userId
    decreases |reqs|
  {
    if |reqs| > 0 {
      var next := Handle(st, reqs[0], h).state;
      HandleKeepsOwners(st, reqs[0], h);
      HandlePreservesConsistent(st, reqs[0], h);
      if k in next.db.memos {
        OwnerNeverChanges(next, reqs[1..], h, k);
      } else {
        FreedIdStaysFree(next, reqs[1..], h, k);
      }
    }
  }

}
