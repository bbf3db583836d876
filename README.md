# url_encor percent-encoding, modelled in Dafny

This project models the core of the Rust crate `url_encor`. The crate does
percent-encoding (URL encoding) of bytes.

- `encode` copies every unreserved byte of its input and writes every other
  byte as `%` followed by two upper-case hex digits. Unreserved bytes are the
  ASCII letters, the ASCII digits, `-`, `.`, `_` and `~` (section 2.3 of
  RFC 3986).
- `decode` scans its input with a cursor:
  - a valid `%XY` becomes one byte;
  - a `%` followed by two bytes that are not both hex digits is echoed with
    those two bytes;
  - `+` becomes a space (the application/x-www-form-urlencoded convention);
  - every other byte is copied, including a `%` with fewer than two bytes
    after it.
- `from_hex` reads the value of a hex digit from a 256-entry `i16` table, in
  which -1 means "not a hex digit".
- `PREPROCESSED_ARRAY` is the 256-entry classification table that `encode`
  reads. It is a literal constant. `preprocess_ascii_convertable` computes the
  same table with a loop, as the crate's unit test at src/lib.rs:246-248
  checks; the encoder itself never calls it. `HEX_DIGITS` is the alphabet
  `0123456789ABCDEF`.

Files:

- `preprocessing.dfy`, module `Preprocessing`: the `Byte` type, the
  classification rule, the literal `PREPROCESSED_ARRAY`, `HEX_DIGITS`, the
  table builder `preprocess_ascii_convertable` as a method with a loop, and
  the hex-value table.
- `url_encor.dfy`, module `UrlEncor`: `from_hex`, and `encode` and `decode`.
  Each of `encode` and `decode` is a method with the source's loop, proved
  equal to a recursive specification function (`Encoded`, `Decoded`).
  Lemmas about those functions carry the properties, the main one being the
  round trip `Decoded(Encoded(s)) == s` for every byte sequence `s`.
- `scenarios.dfy`, module `Scenarios`: concrete examples from the crate's
  tests, stated on the model.

Modelling choices:

- Bytes are integers in `0..255`.
- The source's `b >> 4`, `b & 0xF` and `(n1 << 4) | n2` are written as
  `b / 16`, `b % 16` and `n1 * 16 + n2`. `NibblesOfByte` and `CombineNibbles`
  prove these agree on `bv8`.
- `encode` pushes only ASCII `char`s, so its output is modelled as bytes.
  `EncodedAlphabet` proves every output byte is ASCII.
- `PREPROCESSED_ARRAY` is the source's 256 literal entries, written as eight
  rows of 32.
- `HEX_BYTE_TO_HEX_VALUE` is imported at src/lib.rs:109, and its builder
  `from_hex_bytes_to_value_bytes` is called by the unit test at
  src/lib.rs:242. Neither is in the revision of src/preprocessing.rs this
  model follows. `HexByteToHexValue` defines that table directly:
  `0`-`9` map to 0-9, `A`-`F` and `a`-`f` map to 10-15, and every other byte
  maps to -1.

## Model

| member | source | states |
|---|---|---|
| `Preprocessing.PreprocessAsciiConvertable` | src/preprocessing.rs:79-89 | the loop leaves 256 entries, each one the rule's entry, and the result equals `PREPROCESSED_ARRAY` (the unit test at src/lib.rs:246-248); its invariant says entries below the index follow the rule and entries at or above it are still 0 |
| `Preprocessing.ControlRowFollowsRule` | src/preprocessing.rs:9-13 | table entries 0-31 are the rule's (all 0) |
| `Preprocessing.SymbolAndDigitRowFollowsRule` | src/preprocessing.rs:13-18 | table entries 32-63 are the rule's (`-`, `.` and the digits are 1) |
| `Preprocessing.UpperRowFollowsRule` | src/preprocessing.rs:18-22 | table entries 64-95 are the rule's (`A`-`Z` and `_` are 1) |
| `Preprocessing.LowerRowFollowsRule` | src/preprocessing.rs:22-27 | table entries 96-127 are the rule's (`a`-`z` and `~` are 1) |
| `Preprocessing.NonAsciiRowsFollowRule` | src/preprocessing.rs:27-45 | table entries 128-255 are the rule's (all 0) |
| `Preprocessing.PreprocessedArrayFollowsRule` | src/preprocessing.rs:8-45 | the table has 256 entries, and entry `b` is 1 if and only if `b` is an ASCII letter, an ASCII digit, `-`, `_`, `.` or `~` |
| `Preprocessing.PreprocessedArrayIsAsciiFlags` | src/preprocessing.rs:80-85 | every entry is 0 or 1, and every entry at index 128 or above is 0 |
| `Preprocessing.PercentAndPlusAreEscaped` | src/preprocessing.rs:14-15 | the entries for `%` (0x25) and `+` (0x2B) are 0 |
| `Preprocessing.HexDigitsAlphabet` | src/preprocessing.rs:47 | `HEX_DIGITS` has 16 entries: `0`-`9` at 0-9 and `A`-`F` at 10-15 (the unit test at src/lib.rs:251-260) |
| `Preprocessing.HexByteToHexValue` | src/lib.rs:262-275 | every entry of the hex-value table is -1 or a value below 16 |
| `UrlEncor.FromHex` | src/lib.rs:212-214 | returns a value exactly when the table entry is not -1, which is exactly when the byte is a hex digit of either case; the value is below 16 and is the position in `HEX_DIGITS` of the digit folded to upper case |
| `UrlEncor.FromHexOfHexDigit` | src/lib.rs:178-180 | `from_hex(HEX_DIGITS[v]) == Some(v)` for every `v` below 16 |
| `UrlEncor.FromHexIgnoresCase` | src/lib.rs:212-214 | `a`-`f` are hex digits and have the same value as `A`-`F` |
| `UrlEncor.EncodeByte` | src/lib.rs:136-144 | an unreserved byte is copied; any other byte becomes three bytes, `%` and two upper-case hex digits that `from_hex` reads back as the high and low nibble, so they are `HEX_DIGITS[b >> 4]` and `HEX_DIGITS[b & 0xF]` |
| `UrlEncor.Encoded` | src/lib.rs:133-145 | the output is at least as long as the input and at most three times as long |
| `UrlEncor.Encode` | src/lib.rs:132-148 | the loop branches on `PREPROCESSED_ARRAY` as the source does, and its output is the concatenation, in input order, of each byte's encoding |
| `UrlEncor.EncodedConcat` | src/lib.rs:135-145 | encoding a concatenation is the concatenation of the encodings |
| `UrlEncor.EncodedLength` | src/lib.rs:133-145 | output length is (number of unreserved bytes) + 3 × (number of other bytes), so it lies between the input length and three times it |
| `UrlEncor.EncodedAllEscaped` | src/lib.rs:136-140 | an input with no unreserved byte triples in length |
| `UrlEncor.EncodedIsIdentityIff` | src/lib.rs:136-144 | encoding leaves the input unchanged if and only if every input byte is unreserved |
| `UrlEncor.EncodedAlphabet` | src/lib.rs:138-143 | every output byte is unreserved or `%`, so it is ASCII and never `+` |
| `UrlEncor.DecodeStep` | src/lib.rs:177-197 | each loop iteration consumes 1 or 3 bytes, never more than remain, and pushes no more bytes than it consumes |
| `UrlEncor.Decoded` | src/lib.rs:171-201 | the decoded bytes are never more than the input bytes |
| `UrlEncor.Decode` | src/lib.rs:171-201 | the cursor loop's output equals the specification, so by `Decoded` it is no longer than the input |
| `UrlEncor.DecodedAt` | src/lib.rs:176-198 | from any cursor, decoding is one step and then decoding from the new cursor, which does not pass the end |
| `UrlEncor.DecodeValidEscape` | src/lib.rs:177-181 | `%` and two hex digits decode to the one byte `16 × hi + lo` |
| `UrlEncor.DecodeMalformedEscape` | src/lib.rs:182-187 | `%` and two bytes that are not both hex digits are echoed as they are, and decoding resumes after them |
| `UrlEncor.DecodeShortPercent` | src/lib.rs:193-196 | a `%` with fewer than two bytes after it is copied as a plain byte |
| `UrlEncor.DecodePlus` | src/lib.rs:189-192 | `+` decodes to a space |
| `UrlEncor.DecodeOther` | src/lib.rs:193-196 | a byte other than `%` and `+` is copied |
| `UrlEncor.DecodedIsIdentity` | src/lib.rs:176-198 | input without `%` and `+` decodes to itself |
| `UrlEncor.DecodedConcat` | src/lib.rs:176-198 | decoding splits over a concatenation whose first part holds no `%` |
| `UrlEncor.DecodeEncodedByte` | src/lib.rs:136-143 | the encoding of a byte, followed by anything, decodes to that byte first |
| `UrlEncor.DecodeEncodeRoundTrip` | tests/integration_tests.rs:82-86 | decoding the encoding of any byte sequence gives it back |
| `UrlEncor.EncodedIsInjective` | src/lib.rs:132-148 | two inputs with the same encoding are equal |
| `UrlEncor.NibblesOfByte` | src/lib.rs:139-140 | on a `u8`, `b >> 4` is `b / 16` and `b & 0xF` is `b % 16` |
| `UrlEncor.CombineNibbles` | src/lib.rs:180 | on two nibbles, the bitwise or of `n1 << 4` and `n2` is `n1 × 16 + n2` |
| `Scenarios.EncodeHelloWorld` | tests/integration_tests.rs:9 | `Hello, World!` encodes to `Hello%2C%20World%21` |
| `Scenarios.EncodeUnreservedExample` | tests/integration_tests.rs:10 | `abc123` encodes to itself |
| `Scenarios.EncodeEmailExample` | tests/integration_tests.rs:11 | `user@example.com` encodes to `user%40example.com` |
| `Scenarios.DecodeHelloWorld` | tests/integration_tests.rs:41 | `Hello%2C%20World%21` decodes to `Hello, World!` |
| `Scenarios.EncodeMixedContent` | tests/integration_tests.rs:30 | `Hello, 世界!` as UTF-8 bytes encodes to `Hello%2C%20%E4%B8%96%E7%95%8C%21` |
| `Scenarios.DecodeMixedContent` | tests/integration_tests.rs:62 | `Hello%2C%20%E4%B8%96%E7%95%8C%21` decodes to the UTF-8 bytes of `Hello, 世界!` |
| `Scenarios.DecodeLonePercent` | tests/integration_tests.rs:68 | `%` decodes to `%` |
| `Scenarios.DecodePercentOneDigit` | tests/integration_tests.rs:69 | `%2` decodes to `%2` |
| `Scenarios.DecodePercentBadDigit` | tests/integration_tests.rs:70 | `%2G` decodes to `%2G` |
| `Scenarios.DecodeTrailingPercent` | tests/integration_tests.rs:71 | `100%` decodes to `100%` |
| `Scenarios.DecodePlusHelloWorld` | tests/integration_tests.rs:76 | `Hello+World` decodes to `Hello World` |
| `Scenarios.DecodePlusDigits` | tests/integration_tests.rs:77 | `1+2+3` decodes to `1 2 3` |
| `Scenarios.DecodeEitherCase` | src/lib.rs:178-180 | `%2c` and `%2C` both decode to `,` |

## Left out

- `String::from_utf8_lossy` (src/lib.rs:200): `decode` is modelled from bytes to bytes, and the round trip is stated on bytes. UTF-8 validation and replacement characters are not modelled.
- `encode` takes a `&str`, so its input is always valid UTF-8. The model accepts any byte sequence, which covers those inputs.
- The `Encoder` trait and its `String` impl (src/lib.rs:216-234): they only delegate to `encode` and `decode`.
- src/implementations.rs, src/encoder.rs and src/main.rs: trait sugar, an alternative trait that is not compiled, and a demo that prints.
- `printable_ascii_convertable` (src/preprocessing.rs:54-70): console output only.
- The `CharVector` examples in the crate's doc comment (src/lib.rs:37-102): illustrations that contain `todo!()`.
- The `with_capacity` hints (src/lib.rs:133, src/lib.rs:172): an allocation detail. `EncodedLength` and `Decoded` state the length bounds.
- The unit test `test_preprocessed_hex_conversion` (src/lib.rs:241-243): `from_hex_bytes_to_value_bytes` is not part of this model, so the table is defined directly by `HexByteToHexValue`.
