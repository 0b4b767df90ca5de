/** Keys, and the ideal properties of SHA-256 and ECDSA that results may rest on. */
module Crypto {
  import opened Bytes

  /** A public key; `p256` says that it is a point of that curve. */
  datatype Key = Key(id: int, p256: bool)

  ghost predicate CollisionFree(hash: Bytes -> Bytes)
  {
    forall a, b :: hash(a) == hash(b) ==> a == b
  }

  /** A signature verifies only over the digest of a message that the key's holder signed. */
  ghost predicate Unforgeable(hash: Bytes -> Bytes, verify: (Key, Bytes, Bytes) -> bool, signed: iset<(Key, Bytes)>)
  {
    forall key, digest, signature :: verify(key, digest, signature) ==>
      exists message :: (key, message) in signed && hash(message) == digest
  }
}
