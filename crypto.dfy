/**
 * The hash primitives that the address derivation calls into: OpenSSL's
 * SHA256 (FIPS 180-4) and RIPEMD160.  Their internals are not modelled.
 * A pair of them is a parameter of the derivation; the only thing the model
 * knows about each is the length of its digest, fixed by its result type.
 */
module Crypto {

  /** An `unsigned char`. */
  type byte = x: int | 0 <= x < 256

  const SHA256_DIGEST_LENGTH: nat := 32
  const RIPEMD160_DIGEST_LENGTH: nat := 20

  type Sha256Digest = s: seq<byte> | |s| == SHA256_DIGEST_LENGTH witness seq(32, _ => 0)
  type Ripemd160Digest = s: seq<byte> | |s| == RIPEMD160_DIGEST_LENGTH witness seq(20, _ => 0)

  /** The two one-shot hash functions, each a total function of the message bytes. */
  datatype Hashes = Hashes(sha256: seq<byte> -> Sha256Digest, ripemd160: seq<byte> -> Ripemd160Digest)
}
