/** Digests and the two hashing primitives of the Rust engine.
    SHA-256 itself is not modelled: every operation that hashes takes the
    hash function as a parameter, so whatever is proved holds for any
    function of that shape. */
module Hashing {

  type Byte = bv8

  /** A SHA-256 digest: exactly 32 bytes. */
  type Digest = d: seq<Byte> | |d| == 32 witness seq(32, _ => 0 as Byte)

  /** Stands for `sha256_bytes`: the digest of an arbitrary byte string. */
  type HashFn = seq<Byte> -> Digest

  /** `hash_pair`: the digest of the concatenation `left || right`, in that order. */
  function HashPair(sha: HashFn, left: Digest, right: Digest): Digest
  {
    sha(left + right)
  }

  /** `hash_pair` as a value, for the tree specification. */
  function Combiner(sha: HashFn): (Digest, Digest) -> Digest
  {
    (left: Digest, right: Digest) => HashPair(sha, left, right)
  }
}
