/**
 * The password hasher (bcryptjs) as the controller sees it: `hash` turns a
 * plaintext into a digest and `compare` checks a plaintext against a stored
 * digest. Salting and the cost factor are not part of this model; the two
 * operations are arbitrary functions constrained only by `Lawful`.
 */
module Bcrypt {
  datatype Hasher = Hasher(hash: string -> string, compare: (string, string) -> bool)

  /** A bcrypt digest is a 60-character string. */
  const DigestLength: nat := 60

  /** What the controller relies on: a password matches its own digest, and digests have bcrypt's length. */
  ghost predicate Lawful(h: Hasher)
  {
    forall p :: h.compare(p, h.hash(p)) && |h.hash(p)| == DigestLength
  }
}
