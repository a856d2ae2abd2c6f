/**
 * Address derivation of `ec_key::generate_address` (openssl.cpp) and the
 * `address` type (openssl.hpp).
 *
 * The encoded public key (a SubjectPublicKeyInfo DER, RFC 5480 section 2)
 * ends with the uncompressed EC point 0x04 || X || Y of SEC 1 v2
 * section 2.3.3, 65 bytes long.  The address is the Bitcoin Base58Check
 * payload built from that point, without the Base58 step:
 *
 *   byte 0        version, 0x00
 *   bytes 1..20   RIPEMD160(SHA256(point))
 *   bytes 21..24  first 4 bytes of SHA256(SHA256(bytes 0..20))
 */
module AddressDerivation {
  import opened Wrappers
  import opened Crypto

  /** Length of the uncompressed point at the tail of the encoding. */
  const MAGIC: nat := 65
  const VERSION: byte := 0
  const CHECKSUM_LENGTH: nat := 4
  /** Length of the versioned payload: the version byte and the digest. */
  const PAYLOAD_LENGTH: nat := RIPEMD160_DIGEST_LENGTH + 1
  const ADDRESS_LENGTH: nat := RIPEMD160_DIGEST_LENGTH + 5

  /** `std::array<unsigned char, RIPEMD160_DIGEST_LENGTH + 5>` */
  type Address = s: seq<byte> | |s| == ADDRESS_LENGTH witness seq(25, _ => 0)

  datatype AddressError = InvalidKeyEncoding

  /** The trailing 65 bytes of the encoding, counted from its end. */
  function Point(pubkey: seq<byte>): (point: seq<byte>)
    requires |pubkey| >= MAGIC
    ensures |point| == MAGIC
    ensures pubkey == pubkey[..|pubkey| - MAGIC] + point
  {
    pubkey[|pubkey| - MAGIC..]
  }

  /** RIPEMD160 of SHA256: the digest stored at bytes 1..20. */
  function Hash160(h: Hashes, point: seq<byte>): (digest: Ripemd160Digest)
  {
    h.ripemd160(h.sha256(point))
  }

  /** The first four bytes of a double SHA-256 over the payload. */
  function Checksum(h: Hashes, payload: seq<byte>): (c: seq<byte>)
    ensures |c| == CHECKSUM_LENGTH
  {
    h.sha256(h.sha256(payload))[..CHECKSUM_LENGTH]
  }

  /** Reference definition of the address of an encoded public key. */
  function DeriveAddress(h: Hashes, pubkey: seq<byte>): (r: Result<Address, AddressError>)
  {
    if |pubkey| < MAGIC then Err(InvalidKeyEncoding)
    else
      var payload := [VERSION] + Hash160(h, Point(pubkey));
      Ok(payload + Checksum(h, payload))
  }

  /** The checksum bytes 21..24 match the double SHA-256 of bytes 0..20. */
  predicate ChecksumValid(h: Hashes, a: Address)
  {
    a[PAYLOAD_LENGTH..] == Checksum(h, a[..PAYLOAD_LENGTH])
  }

  /**
   * The receiving side of the layout: an address is accepted when its
   * version byte is 0x00 and its checksum matches; the digest is returned.
   */
  function CheckAddress(h: Hashes, a: Address): (digest: Option<Ripemd160Digest>)
  {
    if a[0] == VERSION && ChecksumValid(h, a) then Some(a[1..PAYLOAD_LENGTH]) else None
  }

  /**
   * Offset of `start` from `&pubkey[0]`: the source computes it as
   * `pubkey.size() - MAGIC` with no check that the encoding is long enough.
   */
  function PointStart(size: nat): (start: int)
    ensures start + MAGIC == size
  {
    size - MAGIC
  }

  // ---------------------------------------------------------------------
  // Properties of the reference definition.
  // ---------------------------------------------------------------------

  /** For an encoding of at least 65 bytes, the 65 bytes read from `start` are the point. */
  lemma PointStartReadsPoint(pubkey: seq<byte>)
    requires |pubkey| >= MAGIC
    ensures 0 <= PointStart(|pubkey|)
    ensures pubkey[PointStart(|pubkey|)..PointStart(|pubkey|) + MAGIC] == Point(pubkey)
  {
  }

  /** As written, a short encoding makes the 65-byte read start before the buffer. */
  lemma ShortEncodingReadsBeforeBuffer(size: nat)
    requires size < MAGIC
    ensures PointStart(size) < 0
    ensures size == 64 ==> PointStart(size) == -1
  {
  }

  /** The derivation accepts exactly the encodings of at least 65 bytes. */
  lemma EncodingLengthBoundary(h: Hashes, pubkey: seq<byte>)
    ensures DeriveAddress(h, pubkey).Ok? <==> |pubkey| >= MAGIC
    ensures |pubkey| == MAGIC ==> DeriveAddress(h, pubkey).Ok?
    ensures |pubkey| == MAGIC - 1 ==> DeriveAddress(h, pubkey) == Err(InvalidKeyEncoding)
  {
  }

  /** Byte 0 is the version, bytes 1..20 the digest, bytes 21..24 a valid checksum. */
  lemma DeriveAddressLayout(h: Hashes, pubkey: seq<byte>)
    requires |pubkey| >= MAGIC
    ensures DeriveAddress(h, pubkey).Ok?
    ensures DeriveAddress(h, pubkey).value[0] == VERSION
    ensures DeriveAddress(h, pubkey).value[1..PAYLOAD_LENGTH] == Hash160(h, Point(pubkey))
    ensures ChecksumValid(h, DeriveAddress(h, pubkey).value)
  {
  }

  /**
   * `CheckAddress` and `DeriveAddress` agree: an address is the one derived
   * from an encoding exactly when `CheckAddress` accepts it and returns the
   * digest of that encoding's point.
   */
  lemma {:induction false} CheckAddressIff(h: Hashes, pubkey: seq<byte>, a: Address)
    requires |pubkey| >= MAGIC
    ensures DeriveAddress(h, pubkey) == Ok(a) <==> CheckAddress(h, a) == Some(Hash160(h, Point(pubkey)))
  {
    var d := Hash160(h, Point(pubkey));
    if DeriveAddress(h, pubkey) == Ok(a) {
      DeriveAddressLayout(h, pubkey);
    }
    if CheckAddress(h, a) == Some(d) {
      assert a[..PAYLOAD_LENGTH] == [VERSION] + d;
      assert a == a[..PAYLOAD_LENGTH] + a[PAYLOAD_LENGTH..];
    }
  }

  /** Only the trailing 65 bytes matter: the header before them is ignored. */
  lemma TailDeterminesAddress(h: Hashes, p1: seq<byte>, p2: seq<byte>)
    requires |p1| >= MAGIC && |p2| >= MAGIC
    requires p1[|p1| - MAGIC..] == p2[|p2| - MAGIC..]
    ensures DeriveAddress(h, p1) == DeriveAddress(h, p2)
  {
  }

  /** Prefixing a bare point with any header leaves its address unchanged. */
  lemma HeaderIgnored(h: Hashes, header: seq<byte>, point: seq<byte>)
    requires |point| == MAGIC
    ensures DeriveAddress(h, header + point) == DeriveAddress(h, point)
  {
  }

  // ---------------------------------------------------------------------
  // The derivation as the source runs it, slot by slot.
  // ---------------------------------------------------------------------

  /**
   * How SHA256 and RIPEMD160 deliver a digest: they write it into the
   * caller's buffer from position `at` on and touch nothing else.
   */
  method Store(dst: array<byte>, at: nat, src: seq<byte>)
    requires at + |src| <= dst.Length
    modifies dst
    ensures dst[..at] == old(dst[..at])
    ensures dst[at..at + |src|] == src
    ensures dst[at + |src|..] == old(dst[at + |src|..])
  {
    for k := 0 to |src|
      invariant forall j :: 0 <= j < at ==> dst[j] == old(dst[j])
      invariant forall j :: 0 <= j < k ==> dst[at + j] == src[j]
      invariant forall j :: at + k <= j < dst.Length ==> dst[j] == old(dst[j])
    {
      dst[at + k] := src[k];
    }
  }

  /**
   * The checksum stage: double SHA-256 over bytes 0..20 of `result`, the
   * first stage going into the reused `hash` buffer and the second into a
   * fresh `hash2`, then the first four bytes of `hash2` copied one by one to
   * bytes 21..24.  Bytes 0..20 are left as they were.
   */
  method WriteChecksum(h: Hashes, result: array<byte>, hash: array<byte>)
    requires result.Length == ADDRESS_LENGTH && hash.Length == SHA256_DIGEST_LENGTH
    requires result != hash
    modifies result, hash
    ensures result[..PAYLOAD_LENGTH] == old(result[..PAYLOAD_LENGTH])
    ensures result[PAYLOAD_LENGTH..] == Checksum(h, old(result[..PAYLOAD_LENGTH]))
  {
    ghost var payload := result[..PAYLOAD_LENGTH];
    Store(hash, 0, h.sha256(result[..PAYLOAD_LENGTH]));
    assert hash[..] == hash[0..SHA256_DIGEST_LENGTH];
    var hash2 := new byte[SHA256_DIGEST_LENGTH];
    Store(hash2, 0, h.sha256(hash[..]));
    assert hash2[..] == hash2[0..SHA256_DIGEST_LENGTH];
    assert Checksum(h, payload) == [hash2[0], hash2[1], hash2[2], hash2[3]];

    result[RIPEMD160_DIGEST_LENGTH + 1] := hash2[0];
    result[RIPEMD160_DIGEST_LENGTH + 2] := hash2[1];
    result[RIPEMD160_DIGEST_LENGTH + 3] := hash2[2];
    result[RIPEMD160_DIGEST_LENGTH + 4] := hash2[3];
  }

  /**
   * `ec_key::generate_address`, given the encoded public key.  `uninit` is
   * the indeterminate content of the default-initialised result array: the
   * result does not depend on it, so every byte is written before it is
   * returned.  An encoding shorter than 65 bytes is rejected.
   */
  method GenerateAddress(h: Hashes, pubkey: seq<byte>, uninit: Address) returns (r: Result<Address, AddressError>)
    ensures r == DeriveAddress(h, pubkey)
    ensures r.Err? <==> |pubkey| < MAGIC
    ensures r.Ok? ==> r.value[0] == VERSION
    ensures r.Ok? ==> r.value[1..PAYLOAD_LENGTH] == Hash160(h, Point(pubkey))
    ensures r.Ok? ==> r.value[PAYLOAD_LENGTH..] == Checksum(h, r.value[..PAYLOAD_LENGTH])
  {
    if |pubkey| < MAGIC {
      return Err(InvalidKeyEncoding);
    }
    var start := PointStart(|pubkey|);
    PointStartReadsPoint(pubkey);
    ghost var digest := Hash160(h, Point(pubkey));

    var hash := new byte[SHA256_DIGEST_LENGTH];
    Store(hash, 0, h.sha256(pubkey[start..start + MAGIC]));
    assert hash[..] == hash[0..SHA256_DIGEST_LENGTH];

    var result := new byte[ADDRESS_LENGTH](i requires 0 <= i < ADDRESS_LENGTH => uninit[i]);
    Store(result, 1, h.ripemd160(hash[..]));
    assert result[1..PAYLOAD_LENGTH] == digest;
    result[0] := VERSION;
    ghost var payload := result[..PAYLOAD_LENGTH];
    assert payload == [result[0]] + result[1..PAYLOAD_LENGTH];
    assert payload == [VERSION] + digest;

    WriteChecksum(h, result, hash);
    ghost var checksum := Checksum(h, payload);
    assert result[..] == payload + checksum by {
      assert result[..] == result[..PAYLOAD_LENGTH] + result[PAYLOAD_LENGTH..];
    }
    r := Ok(result[..]);
    assert r.value[..PAYLOAD_LENGTH] == payload;
    assert r.value[PAYLOAD_LENGTH..] == checksum;
  }
}
