# Address derivation and hex printing of the OpenSSL key tool

This project models the core of a small C++ tool that generates a secp256k1
key pair with OpenSSL and derives a 25-byte address from the public key. It
covers two parts:

- `ec_key::generate_address` (module `AddressDerivation`). It takes the
  DER-encoded public key (SubjectPublicKeyInfo, RFC 5480 section 2) and uses
  its trailing 65 bytes. Those bytes are the uncompressed EC point
  `0x04 || X || Y` of SEC 1 v2 section 2.3.3. The point is hashed with SHA-256
  and then RIPEMD-160, and the 20-byte digest goes into bytes 1..20. Byte 0 is
  set to the version `0x00`. The first 4 bytes of a double SHA-256 over bytes
  0..20 are appended as the checksum. This is the Bitcoin Base58Check payload
  without the Base58 step. `GenerateAddress` fills a 25-element array slot by
  slot in the source's order and reuses one 32-byte `hash` buffer for two
  different hashes. It is proved equal to the reference function
  `DeriveAddress`. The checksum stage is the method `WriteChecksum`.
  `CheckAddress` is the receiving side of the layout: it checks the version
  and the checksum and returns the digest in bytes 1..20. `CheckAddressIff`
  proves that `CheckAddress` accepts an address and returns the digest of an
  encoding's point exactly when `DeriveAddress` produced that address from
  that encoding.
- `print_hex` and the `address` type (module `HexFormat`). An output stream
  is a class holding the text written so far and the `width`, `fill` and
  `base` formatting fields. Formatted insertion of an integer (`PutInt`)
  writes its digits in the current base, right-aligned in the field width
  with the fill character, and then resets the width to 0. `PutHexByte` is
  the loop body, one byte in hex with fill `'0'` and width 2. `PrintHex` is
  proved to append exactly `HexString(a)`: two zero-padded lowercase hex
  digits per byte, in order. It also restores width and fill and leaves the
  stream in decimal. `UnHex` is the inverse of `HexString`, proved in both
  directions. `UnHex` also accepts every even-length text of lowercase hex
  digits.

SHA-256 and RIPEMD-160 are not modelled. The pair of them is a parameter
(`Crypto.Hashes`), and each one's result type fixes its digest length (32 and
20 bytes). Nothing else is assumed about them.

The code at openssl.cpp:104 has no length check. For an encoding shorter
than 65 bytes it computes a pointer before the buffer. The model keeps the
as-written offset (`PointStart`) and shows the out-of-bounds read
(`ShortEncodingReadsBeforeBuffer`). `DeriveAddress` and `GenerateAddress`
reject such encodings with `Err(InvalidKeyEncoding)` (see "## Findings").

## Model

| member | source | states |
|---|---|---|
| AddressDerivation.GenerateAddress | openssl.cpp:98-124 | The result equals `DeriveAddress`. It is an error exactly when the encoding is shorter than 65 bytes. Byte 0 is `0x00`. Bytes 1..20 are RIPEMD160(SHA256(last 65 bytes)). Bytes 21..24 are the first 4 bytes of SHA256(SHA256(bytes 0..20)) of the finished result. None of it depends on the indeterminate initial contents of the `result` array, so every byte is written before the return. |
| AddressDerivation.Store | openssl.cpp:110 | A hash primitive writes its digest into the caller's buffer starting at the given position (as `&result[1]` does) and leaves every other slot unchanged. |
| AddressDerivation.Point | openssl.cpp:104 | The point is the last 65 bytes of the encoding, counted from its end. The encoding is whatever header precedes it followed by the point. |
| AddressDerivation.PointStartReadsPoint | openssl.cpp:104-107 | For an encoding of at least 65 bytes, `start` lies inside the buffer and the 65 bytes hashed from it are exactly the trailing point. |
| AddressDerivation.WriteChecksum | openssl.cpp:113-121 | Bytes 0..20 of the result are left unchanged. Bytes 21..24 become the first 4 bytes of SHA256(SHA256(bytes 0..20)). The first hash goes through the reused `hash` buffer. |
| AddressDerivation.ShortEncodingReadsBeforeBuffer | openssl.cpp:102-104 | As written, an encoding shorter than 65 bytes puts `start` before the buffer. A 64-byte one puts it at offset -1. |
| AddressDerivation.EncodingLengthBoundary | openssl.cpp:102-104 | The corrected derivation succeeds exactly for encodings of at least 65 bytes. Length 65 is accepted. Length 64 is rejected with `InvalidKeyEncoding`. |
| AddressDerivation.DeriveAddressLayout | openssl.cpp:106-121 | For an encoding of at least 65 bytes, byte 0 is the version `0x00`. Bytes 1..20 are RIPEMD160(SHA256(point)). Bytes 21..24 are a valid checksum of bytes 0..20. |
| AddressDerivation.CheckAddressIff | openssl.cpp:109-121 | Both directions: an address is the one derived from an encoding exactly when its version is `0x00`, its checksum matches its first 21 bytes, and its bytes 1..20 are the digest of that encoding's point. |
| AddressDerivation.TailDeterminesAddress | openssl.cpp:104-107 | Two encodings with the same trailing 65 bytes get the same address, whatever their headers. |
| AddressDerivation.HeaderIgnored | openssl.cpp:104-107 | Putting any header in front of a 65-byte point does not change its address. |
| HexFormat.DigitChar | openssl.hpp:70-72 | A digit value below 16 becomes a lowercase hex character. It falls in `0-9` exactly for values below 10. |
| HexFormat.Digits | openssl.hpp:72 | The digits of a number in the stream's base: at least one, and each a character of `0-9a-f`. |
| HexFormat.DigitsValue | openssl.hpp:72 | The digits `Digits` writes denote the number in that base. |
| HexFormat.FormatLayout | openssl.hpp:72 | A formatted insertion is exactly as long as the wider of the field width and the digits. It ends with the number's digits and is padded in front with the fill character. |
| HexFormat.OStream.PutInt | openssl.hpp:72 | `os << (int)b` appends the number formatted with the stream's base, width and fill, then resets the width to 0. Fill and base stay the same. |
| HexFormat.PutHexByte | openssl.hpp:72 | `os << std::setfill('0') << std::setw(2) << (int)b` on a hex stream appends exactly the byte's two hex digits. It leaves fill `'0'`, width 0 and base hex. |
| HexFormat.HexByte | openssl.hpp:72 | A byte becomes exactly two hex digits. |
| HexFormat.HexString | openssl.hpp:71-72 | The hex text of `a` has exactly `2*|a|` characters. |
| HexFormat.FormatByte | openssl.hpp:70-72 | With base hex, fill `'0'` and width 2, the stream writes a byte as its two lowercase hex digits, high nibble first. A byte below 16 gets a leading `'0'`. |
| HexFormat.PrintHex | openssl.hpp:64-78 | Appends exactly the hex text of the bytes, in order. Width and fill are restored to their values on entry. The base is left decimal. Returns the same stream. |
| HexFormat.HexStringAt | openssl.hpp:71-72 | Characters `2i` and `2i+1` of the output are the two hex digits of byte `i`. |
| HexFormat.HexStringAlphabet | openssl.hpp:70-72 | Every character written is in `0-9a-f`. |
| HexFormat.AddressHexLength | openssl.hpp:18 | An `address` (`RIPEMD160_DIGEST_LENGTH + 5` = 25 bytes) is always printed as 50 characters. |
| HexFormat.UnHexHexString | openssl.hpp:71-72 | Reading the hex text back gives the original bytes, so distinct byte strings print differently. |
| HexFormat.UnHexTotal | openssl.hpp:70-72 | Every even-length text of lowercase hex digits is read by `UnHex`. |
| HexFormat.HexStringUnHex | openssl.hpp:71-72 | Conversely, every text `UnHex` reads is the hex text of the bytes it reads as. With `UnHexTotal`, this holds for every even-length lowercase hex text. |

## Left out

- Key generation, curve setup and DER/PEM serialisation (`ec_key::generate`, `public_key`, `private_key`, `write_*_as_pem`, openssl.cpp:30-96): thin calls into OpenSSL whose error conventions are not visible. `GenerateAddress` takes the encoded public key as a parameter instead of calling `public_key()`.
- SHA-256 and RIPEMD-160 internals: only their digest lengths are modelled, by the function-valued parameter `Crypto.Hashes`.
- Library initialisation and teardown (`init`) and the `error` class, which reads OpenSSL's global error queue: global library state.
- The BIO file and stdout sinks (`make_file_bio`, `make_stdout_bio`): I/O plumbing.
- main.cpp is not part of this model. It is the command-line flow, console printing and exit codes.
- GenerateAddress: the `hash` and `hash2` buffers start zeroed rather than indeterminate. Each is fully overwritten by a hash before it is read, so this does not affect the result.
- PrintHex: models `print_hex` for byte sequences (`buffer` and `address`, its two uses). For other element types `(int)b` can be negative, and a negative int prints in hex as its unsigned two's-complement value. That case is not modelled.
- OStream: only `width`, `fill` and the `basefield` are modelled. The other format flags (`uppercase`, `showbase`, left or internal adjustment) are assumed to have their default values. The stream's error state is not modelled.

## Findings

| source | as written | input that shows it | evidently intended | confidence | as-written member | corrected member |
|---|---|---|---|---|---|---|
| openssl.cpp:102-104 | `start = &pubkey[0] + pubkey.size() - MAGIC` with no check that the encoding holds 65 bytes | a 64-byte encoding: `start` is one byte before the buffer and SHA256 reads 65 bytes from there (for an empty encoding `&pubkey[0]` itself is already invalid) | reject encodings shorter than 65 bytes with `InvalidKeyEncoding` | not executed; a well-formed secp256k1 SubjectPublicKeyInfo from `public_key()` is always longer than 65 bytes, so the program as shipped does not reach it | AddressDerivation.ShortEncodingReadsBeforeBuffer | AddressDerivation.EncodingLengthBoundary |
