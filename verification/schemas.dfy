/**
 Request bodies accepted by the handlers (memo/schemas.py). Pydantic validation is
 taken as given: a body that reaches a handler already has these shapes.
 */
module Schemas {
  import opened Options

  /** Signup body: all three fields are required; `password` is the plaintext. */
  datatype UserCreate = UserCreate(username: string, email: string, password: string)

  /** Login body. */
  datatype UserLogin = UserLogin(username: string, password: string)

  /** Create-memo body: both title and content are required. */
  datatype MemoCreate = MemoCreate(title: string, content: string)

  /** Update-memo body: an absent field means "leave unchanged". */
  datatype MemoUpdate = MemoUpdate(title: Option<string>, content: Option<string>)

}
