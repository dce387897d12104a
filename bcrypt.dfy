/**
 * Password hashing as the auth flow consumes it (`bcrypt.hash(p, 10)` and
 * `bcrypt.compare(p, h)`). The salt and the cost function are left out: the
 * hash is a deterministic, tagged value that only its own password matches.
 */
module Bcrypt {

  /** Algorithm and cost tag of a bcrypt hash with 10 rounds. */
  const Prefix := "$2b$10$"

  function Hash(password: string): (h: string)
    ensures h != password
    ensures |h| > |password|
  {
    Prefix + password
  }

  /** `bcrypt.compare(password, hash)` */
  predicate Matches(password: string, hash: string) {
    hash == Hash(password)
  }

  /** A stored hash accepts its own password and no other. */
  lemma MatchesOnlyItsPassword(p: string, q: string)
    ensures Matches(p, Hash(q)) <==> p == q
  {
    if Matches(p, Hash(q)) {
      assert p == Hash(p)[|Prefix|..] == Hash(q)[|Prefix|..] == q;
    }
  }
}
