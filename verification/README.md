# Memo request handlers in Dafny

A model of the request-handling layer of a small personal memo backend. Users sign up,
log in and out, and create, list, update and delete their own memos. The handlers of
`memo/controllers.py` become pure functions from the state before a request (the store
plus one browser's session) to a `Reply`: the response and the state after the request.

- `options.dfy`: `Option`, standing for a Python value that may be `None`.
- `schemas.dfy` (module `Schemas`): the request bodies of `memo/schemas.py`. `MemoCreate`
  has a required title and content. `MemoUpdate` has optional ones.
- `hashing.dfy` (module `Hashing`): the password hasher as two uninterpreted function
  values, `hash` and `verify`, given to the handlers that use them.
- `models.dfy` (module `Models`): users, memos, the store (`Db`), the session, the error
  kinds with their HTTP statuses, the responses, and the store invariant `Valid`.
  Users are keyed by username, memos by id. The store's auto-increment counters are
  explicit, so a new row's id is the counter, which `Valid` keeps above every existing key.
- `controllers.dfy` (module `Controllers`): the seven handlers. It also holds the shared
  session gate `CurrentUser`, the ownership-scoped lookup `FindMemo` and the partial
  update `ApplyUpdate`.
- `router.dfy` (module `Router`): one `Request` type for the seven routes, and `Handle`.
- `invariants.dfy` (module `Invariants`): every handler keeps the state `Consistent`.
  That means the store is `Valid` and a session username names an existing user.
- `traces.dfy` (module `Traces`): `Run` handles a sequence of requests. From empty
  tables, no reachable state answers "user not found".
- `properties.dfy` (module `Properties`): properties that relate several calls.

The "Memo is not found" answer of update and delete is kept as the source has it: a
normal response (`MemoNotFound`) with status 200, not an error status.

## Model

| member | source | states |
|---|---|---|
| Models.StatusCode | memo/controllers.py:16-51 | Each error kind maps to an HTTP error status. 401 is used exactly for an invalid login and a missing session, and 500 exactly for signup's failed commit |
| Models.Status | memo/controllers.py:80-82 | A response has a status other than 200 exactly when it is an error; the "Memo is not found" body is sent with 200 |
| Controllers.Signup | memo/controllers.py:12-26 | A taken username fails with 400 and changes nothing. A failed commit fails with 500 and changes nothing. Otherwise the reply is the acknowledgment, and exactly one user is added under a new id with the given email and the hash of the password. Other users, the memos and the session are untouched |
| Controllers.Login | memo/controllers.py:29-36 | Succeeds iff the username exists and the password verifies against its stored hash. Success puts that username in the session and leaves the store alone. Every failure is the same 401 with the state unchanged |
| Controllers.Logout | memo/controllers.py:38-41 | Always acknowledges, empties the session and leaves the store alone |
| Controllers.CurrentUser | memo/controllers.py:46-51 | No session username gives 401; a session username without a user row gives 404; otherwise the gate yields that user's row |
| Controllers.FindMemo | memo/controllers.py:80-81 | Finds a memo iff its id and its owner's id both match; in a valid store the found row has that id and owner |
| Controllers.CreateMemo | memo/controllers.py:44-56 | Gate failures return the gate's error and change nothing. Otherwise the new memo has a fresh id, the caller's user id, the given title and content. It is added under that id and all other memos, the users and the session are unchanged |
| Controllers.ListMemos | memo/controllers.py:59-68 | Gate failures return the gate's error. Otherwise the result holds exactly the memos whose owner is the caller, with their stored values. The state never changes |
| Controllers.ApplyUpdate | memo/controllers.py:84-87 | A supplied title or content replaces the old one, an absent one keeps it, and the id and owner never change |
| Controllers.UpdateMemo | memo/controllers.py:72-91 | Gate failures return the gate's error. A memo not owned by the caller gives "Memo is not found" with the state unchanged. Otherwise only that memo changes, to the partial update of it, and it is returned |
| Controllers.DeleteMemo | memo/controllers.py:94-107 | Gate failures return the gate's error. A memo not owned by the caller gives "Memo is not found" with the state unchanged. Otherwise exactly that memo is removed and all others, the users and the session are kept |
| Router.Handle | memo/controllers.py:12-107 | Each route goes to its handler. On a memo route a failed session gate answers with the gate's error and changes nothing. Routes outside the gate never answer 401 "not authorized" or 404. Every failure leaves the state unchanged, and login and list never change the store |
| Invariants.SignupPreservesConsistent | memo/controllers.py:14-19 | Signup keeps usernames unique, user ids unique and below the counter, and every memo owner existing |
| Invariants.CreateMemoPreservesConsistent | memo/controllers.py:49-54 | A created memo's owner is an existing user and its id is a fresh key below the counter |
| Invariants.UpdateMemoPreservesConsistent | memo/controllers.py:84-89 | Updating a memo keeps the store valid, since its id and owner are unchanged |
| Invariants.DeleteMemoPreservesConsistent | memo/controllers.py:105-106 | Deleting a memo keeps the store valid |
| Invariants.HandlePreservesConsistent | memo/controllers.py:12-107 | Every route keeps the store valid and a session username naming an existing user |
| Traces.Run | memo/controllers.py:12-107 | A sequence of requests never removes or alters a user row and never lowers the memo id counter |
| Traces.RunPreservesConsistent | memo/controllers.py:12-107 | Any sequence of requests from a consistent state ends in a consistent state |
| Traces.HandleKeepsOwners | memo/controllers.py:52-107 | In a valid store one request never lowers the memo id counter, never changes the owner of a memo it keeps, and never brings back an unused id below the counter |
| Traces.FreedIdStaysFree | memo/controllers.py:52-56 | With the store giving ids from a counter that only goes up, a memo id below the counter that is not in use is never used again by later requests. This is the store's id assignment for the insert, not a choice the handler makes |
| Traces.OwnerNeverChanges | memo/controllers.py:84-87 | Whatever requests follow, a memo that still exists keeps the owner it was created with |
| Traces.ReachableNeverUserNotFound | memo/controllers.py:49-51 | In a state reached from empty tables, no request is answered with 404 "user not found"; the branch is only a defensive check |
| Properties.SignupThenLogin | memo/controllers.py:17-33 | After a successful signup with a password the hasher accepts, a login with the same credentials succeeds and the session holds the username |
| Properties.LoginFailuresIndistinguishable | memo/controllers.py:31-36 | An unknown username and a wrong password give the identical reply, a 401 with nothing changed |
| Properties.LogoutIdempotent | memo/controllers.py:40-41 | Logging out twice equals logging out once |
| Properties.LogoutThenMemoRequestRefused | memo/controllers.py:46-48 | After a logout, every memo route answers 401 and changes nothing |
| Properties.MemoRequestGate | memo/controllers.py:96-101 | For every memo route, no session gives 401 and an unknown session user gives 404. A failure happens exactly when the gate fails, and then the state is unchanged |
| Properties.OwnershipIsolation | memo/controllers.py:68-82 | Another user's memo is not in the caller's list. Updating or deleting it yields "Memo is not found" with status 200 and the state unchanged |
| Properties.IsolationAcrossRequests | memo/controllers.py:80-104 | After any further requests, a memo created by one user is not in another user's list. That user's update or delete of it is refused by the gate or answered "Memo is not found" with nothing changed |
| Properties.EmptyUpdateIsIdentity | memo/controllers.py:84-87 | An update with neither field leaves the memo identical |
| Properties.SingleFieldUpdate | memo/controllers.py:84-87 | A title-only update changes only the title; a content-only update changes only the content |
| Properties.UpdateIdempotent | memo/controllers.py:84-87 | Applying the same update twice equals applying it once |
| Properties.DeleteThenNotFound | memo/controllers.py:102-107 | After a memo is deleted, a further update or delete of its id yields "Memo is not found" |
| Properties.MemoLifecycle | memo/controllers.py:12-107 | From empty tables: signup, login, create, list (exactly the new memo), content-only update (title kept), delete, and a second delete that finds nothing |

## Left out

- Database engine, connection string and session factory (`memo/database.py`): replaced by the abstract `Db` maps.
- Session cookie middleware, app wiring and table creation (`memo/main.py`): the session is one `Option<string>` in the state, for a single browser.
- Password hashing and verification: their code is not part of this model. They are the uninterpreted `Hasher` values. The one fact used about them, `verify(p, hash(p))`, is a precondition where needed.
- Commit failures of create, update and delete: the source does not catch them, so they surface as framework 500 errors that depend on the database. Only signup's explicit 500 path is modelled, as the `Commit` parameter.
- Home and about endpoints and all HTML rendering: constant output. The list handler returns the filtered memo map instead of a rendered page.
- Error detail strings: each error is modelled by its kind and HTTP status, not its message text.
- Store-generated ids: modelled as auto-increment counters. Concurrent requests and last-write-wins races are not modelled.
- Username comparison is exact equality on strings. A database collation that compares case-insensitively is not modelled.
- Traces.ReachableNeverUserNotFound: only covers sessions set by login. No route deletes or renames a user, and login stores the row's own username, so requests from other browsers cannot break this. The 404 branch is reached by a cookie signed, with the fixed signing key of `memo/main.py`, for a username that has no row, or by a cookie that outlives a reset database. Neither is modelled.
- Traces.FreedIdStaysFree, Traces.OwnerNeverChanges, Properties.IsolationAcrossRequests: assume the store never reuses an AUTO_INCREMENT value. A MySQL server before 8.0 resets the counter to the largest id plus one on restart. There, a deleted memo with the largest id can have its id given to another user's new memo, and that memo then shows up under that id in the other user's list.
