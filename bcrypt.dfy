/**
  The password hashing library (bcrypt and bcryptjs), seen from outside.

  A password field holds either text as the client sent it or the digest
  of an earlier value. Salting and the cost factor are not modelled:
  a digest is determined by what was hashed, and `Compare` accepts a
  plaintext exactly when the stored value is the digest of that plaintext.
  The free constructor adds two assumptions the library does not give.
  First, a digest differs from every client string; a real digest is text,
  and a client can send it. Second, the digests of two different strings
  differ; bcrypt reads only the first 72 bytes of its input.
*/
module Bcrypt {

  /** The value of a password field. */
  datatype Secret = Plain(text: string) | Digest(input: Secret)

  /** bcrypt.hash(value, salt): a one-way digest of the value. */
  function Hash(s: Secret): (h: Secret)
    ensures Rounds(h) == Rounds(s) + 1 && h != s
  {
    Digest(s)
  }

  /** bcrypt.compare(plaintext, stored). A stored value that is not a digest
      (a malformed hash) compares false rather than throwing. */
  predicate Compare(plaintext: string, stored: Secret): (ok: bool)
    ensures ok ==> stored.Digest? && stored.input.Plain? && stored.input.text == plaintext
  {
    stored == Hash(Plain(plaintext))
  }

  /** How many times the stored value has been hashed. */
  function Rounds(s: Secret): nat
  {
    match s
    case Plain(_) => 0
    case Digest(inner) => 1 + Rounds(inner)
  }

  /** A string schema path marked `required` rejects the empty string; a digest
      is never empty. */
  predicate NonEmpty(s: Secret)
  {
    s.Digest? || s.text != ""
  }

  /** The digest of a plaintext verifies that plaintext and, under the free
      constructor's injectivity, no other. */
  lemma CompareDigestOf(p: string, q: string)
    ensures Compare(p, Hash(Plain(q))) <==> p == q
  {
  }

  /** Only a value hashed exactly once from a client string can verify. A
      stored string the client sent, or a digest of a digest, verifies no
      client string: the model keeps digests apart from client text. */
  lemma CompareNeedsOneRound(p: string, stored: Secret)
    requires Compare(p, stored)
    ensures Rounds(stored) == 1
  {
  }

  /** Hashing a password twice leaves a field that the password itself does
      not verify, nor any other string a client chooses; only the secret text
      of the inner digest would. */
  lemma DoubleHashVerifiesNothing(p: string, q: string)
    ensures !Compare(q, Hash(Hash(Plain(p))))
  {
    assert Hash(Plain(p)) != Plain(q);
  }
}
