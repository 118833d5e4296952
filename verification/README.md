# Bech32 / Bech32m codec

A Dafny model of the `Bech32` class of the `net.siisise.bips` package, an
encoder and decoder for the Bech32 format of BIP-173 and its Bech32m variant
of BIP-350. A Bech32 string has four parts:

- a human-readable prefix (the hrp);
- the separator `1`;
- the payload bytes, written as base-32 symbols of the alphabet
  `qpzry9x8gf2tvdw0s3jn54khce6mua7l`;
- six checksum symbols.

The checksum is a BCH code over GF(32). A 30-bit state is folded over the
5-bit groups of the expanded prefix and the payload. Bech32 requires the
final state to be `1` and Bech32m requires `0x2bc830a3`.

Modules, in dependency order:

- `Wrappers`: `Option` and `Result`.
- `Bitwise`: Java's `int` operations on nonnegative values.
  - Shifts are products and quotients by powers of two.
  - Masks are remainders.
  - Exclusive or is defined bit by bit, with its algebra: commutative,
    associative, self-inverse and bounded.
- `BitPacket`: the bit buffer the codec writes into and reads from.
  - It is a sequence of booleans, most significant bit first.
  - `writeBit(x, w)` appends the low `w` bits of `x`.
  - Reading takes `w`-bit values while enough bits remain.
  - Bytes and 5-bit groups are written and read through it.
- `Checksum`: the generator constants `GEN`, one step of `polymod`, and
  `polymod` itself.
  - Lemmas: the bound below 2^30, the fold splitting at group boundaries,
    the linearity of the reduction in the last six groups, and the residue
    law a checksum relies on.
- `Text`: `lastIndexOf`, `startsWith`, `toLowerCase` and `toUpperCase`
  (ASCII letters only).
- `Base32`: the Bech32 alphabet, and bytes regrouped into zero-padded
  5-bit groups and back.
- `Bech32`: the constructor, `expandHrp`, `createChecksum`,
  `encodeChecksum`, `verifyChecksum`, `encode`, `decodeMap` and `decode`.
  - The source throws a message-less `IllegalStateException` for every
    rejection; the model returns a `DecodeError` that also names the check
    that failed.
  - The source returns a `Map`; the model returns a `Decoded` value.
- `Bech32Properties`: what the codec promises as a whole.
  - Checksum soundness.
  - The encode/decode round trip.
  - Separation of the two variants.
  - Case insensitivity and rejection of mixed case.
  - An exact characterisation of the strings `decodeMap` accepts, and the
    error each failing check reports.

## Model

Source paths are relative to the repository root.

| member | source | states |
|---|---|---|
| Bech32.NewCodec | src/main/java/net/siisise/bips/Bech32.java:21-40 | construction fails exactly when the prefix contains `1`; otherwise the codec keeps a prefix exactly when one was given, stored lower-case and without `1`, and uses `0x2bc830a3` exactly for Bech32m and `1` otherwise |
| Bech32.ExpandHrp | src/main/java/net/siisise/bips/Bech32.java:104-115 | an n-character prefix expands to 5·(2n+1) bits |
| Bech32Properties.ExpandHrpGroups | src/main/java/net/siisise/bips/Bech32.java:104-115 | read as 5-bit groups, the expansion is 2n+1 groups: the low five bits of `c >>> 5` for each character, then 0, then the low five bits of each character |
| BitPacket.BitsOf | src/main/java/net/siisise/bips/Bech32.java:108-112 | `writeBit(x, w)` appends exactly `w` bits |
| BitPacket.ReadInt | src/main/java/net/siisise/bips/Bech32.java:122 | `readInt` of `w` bits gives a value below 2^w |
| BitPacket.ReadBitsOf | src/main/java/net/siisise/bips/Bech32.java:122 | reading back the `w` bits written for `x` gives the low `w` bits of `x` |
| BitPacket.ReadGroups | src/main/java/net/siisise/bips/Bech32.java:121-122 | a stream read five bits at a time gives one group for each whole five bits, each below 32 |
| BitPacket.ReadWriteGroups | src/main/java/net/siisise/bips/Bech32.java:121-122 | groups written and read back five bits at a time are unchanged |
| Checksum.Step | src/main/java/net/siisise/bips/Bech32.java:121-127 | one step of the loop (25-bit mask, shift by five, group XOR-ed in, generators for the bits shifted out) keeps the state below 2^30 |
| Checksum.Polymod | src/main/java/net/siisise/bips/Bech32.java:119-130 | the reduction of any whole number of groups is below 2^30 |
| Checksum.PolymodFromAppend | src/main/java/net/siisise/bips/Bech32.java:119-130 | the reduction over two concatenated group sequences is the reduction of the second continued from the state the first ends in |
| Checksum.PolymodFromLinear | src/main/java/net/siisise/bips/Bech32.java:117-130 | from any state, the reduction over six groups is the reduction over six zero groups XOR the six groups' value |
| Checksum.Residue | src/main/java/net/siisise/bips/Bech32.java:117-130 | appending the six groups of (reduction with six zero groups) XOR k drives the reduction to exactly k |
| Base32.Pad | src/main/java/net/siisise/bips/Bech32.java:155-157 | the padding is below five bits and completes 8·n bits to a multiple of five |
| Bech32.ChecksumInput | src/main/java/net/siisise/bips/Bech32.java:152-159 | the bits handed to `polymod` are a whole number of groups: 5·(2n+1) prefix bits, 8·len data bits plus the padding, then 30 zero bits |
| Bech32.CreateChecksum | src/main/java/net/siisise/bips/Bech32.java:152-161 | for either constant the checksum is below 2^30 |
| Bech32.EncodeChecksum | src/main/java/net/siisise/bips/Bech32.java:142-144 | the checksum is written as exactly six characters, each a symbol of the alphabet |
| Bech32Properties.EncodeChecksumGroups | src/main/java/net/siisise/bips/Bech32.java:142-144 | the first six symbols of the bytes of `sum << 2` are the symbols of the six 5-bit groups of the 30-bit checksum, most significant first |
| Base32.EncodeBytes | src/main/java/net/siisise/bips/Bech32.java:137 | n bytes become ⌈8n/5⌉ characters, each of them a symbol of the alphabet |
| Base32.DecodeBytes | src/main/java/net/siisise/bips/Bech32.java:95 | symbols decode exactly when every character is a symbol, to ⌊5m/8⌋ bytes |
| Base32.DecodeEncodeBytes | src/main/java/net/siisise/bips/Bech32.java:95 | decoding the symbols of a byte sequence gives the bytes back: the zero padding is dropped |
| Bech32.Encode | src/main/java/net/siisise/bips/Bech32.java:132-140 | the output is the prefix, `1`, ⌈8·len/5⌉ payload characters and six checksum characters |
| Bech32Properties.EncodeShape | src/main/java/net/siisise/bips/Bech32.java:132-140 | the output of a constructed codec is lower case, its last `1` is the one after the prefix, and after the `1` come the payload symbols and then the checksum symbols |
| Base32.DecodePacket | src/main/java/net/siisise/bips/Bech32.java:171 | `decodePacket` succeeds exactly when every character is a symbol, giving five bits per symbol |
| Bech32.VerifyChecksum | src/main/java/net/siisise/bips/Bech32.java:169-173 | the checksum is decided exactly when every character is a symbol of the alphabet |
| Bech32Properties.ChecksumSound | src/main/java/net/siisise/bips/Bech32.java:152-173 | the payload symbols followed by the checksum made for a constant verify against a constant exactly when it is the same constant |
| Bech32.PrefixMatches | src/main/java/net/siisise/bips/Bech32.java:81 | the prefix check passes exactly when no prefix is configured, or the lower-cased input has the prefix in front, then `1`, and its last `1` is that one |
| Bech32.SingleCase | src/main/java/net/siisise/bips/Bech32.java:84 | the case check passes exactly when the string has no upper-case letter or has no lower-case letter |
| Text.StartsWithSeparator | src/main/java/net/siisise/bips/Bech32.java:81 | `startsWith(p + '1')` holds exactly when `p` is in front and `1` comes right after it |
| Bech32.DecodeParts | src/main/java/net/siisise/bips/Bech32.java:88-96 | a success carries the text before the separator as prefix and a checksum that reaches the constant, and its payload is the decoding of the symbols before the last six; a failure is an invalid character or a checksum mismatch |
| Bech32.DecodeChecked | src/main/java/net/siisise/bips/Bech32.java:81-96 | the missing-separator error is reported exactly when there is no separator; a success means the separator is inside the string and the case is uniform |
| Bech32.DecodeMap | src/main/java/net/siisise/bips/Bech32.java:77-97 | the missing-separator error is reported exactly when there is no `1`; a success returns the lower-cased text before the last `1` as prefix, for a single-case input |
| Bech32.Decode | src/main/java/net/siisise/bips/Bech32.java:64-68 | succeeds exactly when `decodeMap` does, with its payload |
| Bech32Properties.RejectTooShort | src/main/java/net/siisise/bips/Bech32.java:81-82 | a string whose last `1` has fewer than six characters after it is rejected as too short |
| Bech32Properties.RejectPrefix | src/main/java/net/siisise/bips/Bech32.java:81-82 | once long enough, a string whose lower case does not start with the configured prefix and `1`, or whose last `1` is not right after that prefix, is rejected as a prefix mismatch |
| Bech32Properties.RejectMixedCase | src/main/java/net/siisise/bips/Bech32.java:84-85 | once shape and prefix pass, a string with both an upper-case and a lower-case letter is rejected as mixed case |
| Bech32Properties.RejectChecksum | src/main/java/net/siisise/bips/Bech32.java:88-91 | once shape, prefix and case pass, a string whose checksum does not reach the constant is rejected as a checksum mismatch |
| Bech32Properties.AcceptedAcceptable | src/main/java/net/siisise/bips/Bech32.java:79-92 | an accepted string has a last `1` with at least six characters after it, the configured prefix, a single case and a checksum reaching the constant |
| Bech32Properties.AcceptableAccepted | src/main/java/net/siisise/bips/Bech32.java:79-95 | a string meeting those four conditions is accepted |
| Bech32Properties.DecodeAccepts | src/main/java/net/siisise/bips/Bech32.java:79-95 | `decodeMap` accepts a string if and only if it meets those four conditions |
| Bech32Properties.DecodeSound | src/main/java/net/siisise/bips/Bech32.java:88-95 | on success the prefix is the configured one, the checksum of the lower-cased text reaches the constant, and the payload is the decoding of the symbols between the last `1` and the last six characters |
| Bech32Properties.RoundTrip | src/main/java/net/siisise/bips/Bech32.java:77-97 | a codec with the same constant, expecting the same prefix or any, decodes an encoded string to the prefix and the payload it was made from |
| Bech32Properties.DecodeEncode | src/main/java/net/siisise/bips/Bech32.java:64-68 | `decode(encode(data)) == data` for every constructed codec with a prefix |
| Bech32Properties.NewCodecRoundTrip | src/main/java/net/siisise/bips/Bech32.java:33-40 | for every prefix without `1`, whatever its case, construction succeeds, and the codec decodes what it encodes |
| Bech32Properties.VariantSeparation | src/main/java/net/siisise/bips/Bech32.java:169-173 | a string encoded for one variant is rejected with a checksum mismatch by a codec of the other variant |
| Bech32Properties.DecodeMapCongruent | src/main/java/net/siisise/bips/Bech32.java:79-86 | `decodeMap` depends on its input only through the last `1`, the length, the lower-cased text and whether the case is uniform |
| Bech32Properties.CaseInsensitive | src/main/java/net/siisise/bips/Bech32.java:80-88 | the upper-case and lower-case forms of a string decode alike; a string either decodes like its lower-case form or is rejected as mixed case |
| Bech32Properties.MixedCaseRejected | src/main/java/net/siisise/bips/Bech32.java:84-86 | a string with both an upper-case and a lower-case letter is never accepted |
| Text.LastIndexOf | src/main/java/net/siisise/bips/Bech32.java:79 | the result is -1 exactly when the character is absent; otherwise it is a position of the character with none after it |
| Text.ToLower | src/main/java/net/siisise/bips/Bech32.java:80 | the lower case has the same length and maps each character on its own |
| Text.ToUpper | src/main/java/net/siisise/bips/Bech32.java:84 | the upper case has the same length and maps each character on its own |
| Text.LastIndexOfCase | src/main/java/net/siisise/bips/Bech32.java:79-80 | changing the case does not move the last separator |
| BitPacket.IntBytes | src/main/java/net/siisise/bips/Bech32.java:143 | `Bin.toByte` of an `int` is four bytes |
| BitPacket.WriteIntBytes | src/main/java/net/siisise/bips/Bech32.java:143 | the four bytes of an `int` carry its low 32 bits, most significant first |

## Left out

- `LNURL.java` is not part of this model. It is glue that calls `encode` and
  `decode` with the fixed prefix `lnurl` and adds charset and URL handling.
- `BASE32`, `BitPacket`, `BigBitPacket` and `Bin.toByte` are not part of this
  model. They appear only through the functions of `Base32` and `BitPacket`:
  - a bit sequence, most significant bit first;
  - the alphabet as a table;
  - bytes regrouped into 5-bit groups, zero-padded on encoding, with
    leftover bits dropped on decoding.
- Bech32.DecodeParts: how `BASE32` treats a character outside the alphabet
  is not visible. The model reports `InvalidCharacter` for it.
- Bech32.DecodeMap: the source throws the same message-less
  `IllegalStateException` for all five checks (Bech32.java lines 82, 85 and
  91): no separator, too short, prefix mismatch, mixed case and checksum
  mismatch. The source only promises that the string is rejected. The
  `DecodeError` kinds are the model's refinement, and so is their order
  when several checks fail at once: separator, length, prefix, case,
  checksum. Only the success/failure outcome is the source's behaviour.
- Bech32.Encode: has no result without a prefix (`requires c.hrp.Some?`).
  With a null prefix the source appends `"null"` and then fails with a
  `NullPointerException` in `expandHrp`. A missing prefix is modelled only
  as the accept-any-prefix mode of decoding.
- The `encode(src, offset, length)` overload is modelled for the whole array
  only. Slicing is the caller's concern.
- Text.ToLower: case mapping covers the ASCII letters only, and assumes that
  the default locale maps ASCII letters to ASCII letters. Java's
  no-argument `toLowerCase()` (Bech32.java lines 39 and 80) and
  `toUpperCase()` (line 84) follow the default locale. In a Turkish or
  Azerbaijani locale, `I` lowers to `ı` (U+0131) and `i` raises to `İ`
  (U+0130). There a stored prefix such as `BIP` becomes `bıp`, and an
  upper-case string whose prefix holds an `I` fails its checksum, so
  `CaseInsensitive` does not hold of the source. Mapping of non-ASCII
  characters is not modelled either.
- Text.ToUpper: same assumption as Text.ToLower, for `toUpperCase()`
  (Bech32.java line 84).
- Bech32.Code: characters are Dafny characters, not UTF-16 code units.
  Characters beyond the Basic Multilingual Plane, which Java splits into two
  units, are not modelled.
- Bech32.ChecksumInput: `length * 8` is computed on unbounded integers. The
  source's `int` overflows from 2^28 bytes on, where `length * 8` reaches
  2^31 and wraps. From there, `length * 8 % 5` can be negative, so the
  padding of line 155 is skipped. `polymod` then gets a stream that is not
  a whole number of groups. The model does not reproduce this.
- Checksum.Step: the state is a natural number below 2^30. There, Java's
  `>>`, `&` and `<<` on `int` agree with `/`, `%` and `*`, because the sign
  bit is never set.
- The expected value `a12uel5l` for the prefix `a` and an empty payload
  (src/test/java/net/siisise/bips/Bech32Test.java:38-46) is not proved as a
  concrete instance. The verifier cannot evaluate the bitwise exclusive or
  of the 30-bit reduction on literals within its budget. The general lemmas
  cover the behaviour: the shape, the checksum soundness and the round trip.
- The decode test (src/test/java/net/siisise/bips/Bech32Test.java:19-31)
  asserts nothing, so nothing is modelled from it.
- BIP-173 imposes more on a valid string than this source checks: a
  90-character limit, a prefix of 1 to 83 characters, a prefix range of 33
  to 126, and zero padding bits on decoding. `Bech32.java` checks none of
  the length, the prefix length or the prefix range, so the model does not
  either. In particular, both accept an empty prefix: the constructor takes
  `""`, and with no prefix configured `1` followed by six checksum symbols
  decodes. Whether `BASE32.decode` checks the padding
  bits cannot be seen. The model assumes it does not, and drops the
  leftover bits whatever their value.
