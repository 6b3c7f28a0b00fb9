/**
 * Content identifiers. A CID is the triple the cid library builds in
 * `CidGeneric::new(version, codec, multihash)`; its parts are compared by
 * value, so two CIDs are equal exactly when all three parts are.
 */
module Cids {

  /** Rust's `u64`. */
  newtype u64 = x: int | 0 <= x < 0x1_0000_0000_0000_0000

  /** Rust's `u8`. */
  newtype byte = x: int | 0 <= x < 0x100

  datatype Version = V0 | V1

  /** A multihash: the multicodec code of the hash function and the digest bytes. */
  datatype Multihash = Multihash(code: u64, digest: seq<byte>)

  datatype Cid = Cid(version: Version, codec: u64, hash: Multihash)

  /** The multicodec code of dag-pb, the only codec `CidGeneric::new` accepts for a version-0 CID. */
  const DagPbCode: u64 := 0x70
}
