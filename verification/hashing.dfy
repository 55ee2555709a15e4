/**
 The password hasher is a foreign collaborator whose code is not part of this model.
 It is represented by two uninterpreted function values that every handler needing
 them receives as a parameter.
 */
module Hashing {

  datatype Hasher = Hasher(hash: string -> string, verify: (string, string) -> bool)

  /** The hasher's own promise for one password: a fresh hash of it verifies. */
  predicate Accepts(h: Hasher, password: string) {
    h.verify(password, h.hash(password))
  }

}
