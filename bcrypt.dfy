/**
 * The credential hasher of the user module, over an abstract bcrypt.
 *
 * The bcrypt library is foreign code: the model does not know how it
 * hashes, only the shape of its two entry points. `generate` stands for
 * GenerateFromPassword (the digest, possibly empty, and Go's error value)
 * and `compare` for CompareHashAndPassword (nil when the candidate matches
 * the stored digest, an error otherwise).
 */
module Bcrypt {

  /** Go's `error` value: nil, or a failure carrying its message. */
  datatype GoError = Nil | Failed(message: string)

  /** The two bcrypt entry points the user module calls. */
  datatype Hasher = Hasher(
    generate: string -> (string, GoError),
    compare: (string, string) -> GoError)

  /**
   * BcryptEncrypt: the digest of `password` together with the library's
   * error value; the digest is handed back even when the error is not nil.
   */
  function Encrypt(h: Hasher, password: string): (r: (string, GoError))
    ensures RoundTrips(h) && r.1 == Nil ==> h.compare(r.0, password) == Nil
  {
    h.generate(password)
  }

  /**
   * BcryptMatchPassword: accepts the candidate exactly when the library
   * reports no error. Every error, a mismatch or a malformed stored digest
   * alike, collapses to the same `false`.
   */
  function MatchPassword(h: Hasher, storedHash: string, enteredPassword: string): (ok: bool)
    ensures ok <==> h.compare(storedHash, enteredPassword) == Nil
    ensures !ok <==> h.compare(storedHash, enteredPassword).Failed?
  {
    match h.compare(storedHash, enteredPassword)
    case Failed(_) => false
    case Nil => true
  }

  /**
   * What the library is trusted to do: a digest it produced without error
   * is accepted for the password it was produced from. This is a property
   * of bcrypt, not of the user module, so the model only ever takes it as a
   * hypothesis.
   */
  ghost predicate RoundTrips(h: Hasher)
  {
    forall p :: h.generate(p).1 == Nil ==> h.compare(h.generate(p).0, p) == Nil
  }

  /** The encrypt-then-match round trip the module relies on for logins. */
  lemma MatchAcceptsOwnDigest(h: Hasher, password: string)
    requires RoundTrips(h)
    requires Encrypt(h, password).1 == Nil
    ensures MatchPassword(h, Encrypt(h, password).0, password)
  {
  }
}
