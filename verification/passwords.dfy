/** Password hashing, taken as an opaque generate/check pair.

    werkzeug's `generate_password_hash` draws a fresh random salt on each call;
    the model makes that salt an explicit argument so that the functions are
    deterministic. */
module Passwords {

  /** The random salt that `generate_password_hash` would draw. */
  type Salt = string

  /** The pair `generate_password_hash(password)` / `check_password_hash(hash, password)`. */
  datatype Hasher = Hasher(generate: (string, Salt) -> string, check: (string, string) -> bool)

  /** The only property of the hash the flow relies on: a hash made from a
      password verifies against that same password, whatever the salt. */
  ghost predicate Sound(h: Hasher) {
    forall password: string, salt: Salt :: h.check(h.generate(password, salt), password)
  }
}
