/** Lookup tables of the url_encor crate: the byte classification table and
    its builder, the upper-case hex alphabet (src/preprocessing.rs), and the
    hex-value table that `from_hex` reads. */
module Preprocessing {

  /** An unsigned 8-bit value (Rust `u8`). */
  type Byte = b: int | 0 <= b < 256

  /** The rule of `preprocess_ascii_convertable`: the unreserved characters of
      section 2.3 of RFC 3986, that is ASCII letters, ASCII digits, `-`, `_`,
      `.` and `~`. */
  predicate IsUnreserved(b: Byte) {
    ('a' as int <= b <= 'z' as int) || ('A' as int <= b <= 'Z' as int) ||
    ('0' as int <= b <= '9' as int) ||
    b == '-' as int || b == '_' as int || b == '.' as int || b == '~' as int
  }

  /** The entry the rule gives byte `b`: 1 (copy unchanged) or 0 (escape). */
  function RuleEntry(b: Byte): Byte {
    if IsUnreserved(b) then 1 else 0
  }

  /** `PREPROCESSED_ARRAY`, the precomputed classification table: entry `b`
      is 1 when the encoder copies byte `b` and 0 when it escapes it. The 256
      literal entries are written as eight rows of 32. */
  const PreprocessedArray: seq<Byte> :=
    [0, 0, 0, 0, 0, 0, 0, 0, 0, 0, 0, 0, 0, 0, 0, 0, 0, 0, 0, 0, 0, 0, 0, 0, 0, 0, 0, 0, 0, 0, 0, 0] +
    [0, 0, 0, 0, 0, 0, 0, 0, 0, 0, 0, 0, 0, 1, 1, 0, 1, 1, 1, 1, 1, 1, 1, 1, 1, 1, 0, 0, 0, 0, 0, 0] +
    [0, 1, 1, 1, 1, 1, 1, 1, 1, 1, 1, 1, 1, 1, 1, 1, 1, 1, 1, 1, 1, 1, 1, 1, 1, 1, 1, 0, 0, 0, 0, 1] +
    [0, 1, 1, 1, 1, 1, 1, 1, 1, 1, 1, 1, 1, 1, 1, 1, 1, 1, 1, 1, 1, 1, 1, 1, 1, 1, 1, 0, 0, 0, 1, 0] +
    [0, 0, 0, 0, 0, 0, 0, 0, 0, 0, 0, 0, 0, 0, 0, 0, 0, 0, 0, 0, 0, 0, 0, 0, 0, 0, 0, 0, 0, 0, 0, 0] +
    [0, 0, 0, 0, 0, 0, 0, 0, 0, 0, 0, 0, 0, 0, 0, 0, 0, 0, 0, 0, 0, 0, 0, 0, 0, 0, 0, 0, 0, 0, 0, 0] +
    [0, 0, 0, 0, 0, 0, 0, 0, 0, 0, 0, 0, 0, 0, 0, 0, 0, 0, 0, 0, 0, 0, 0, 0, 0, 0, 0, 0, 0, 0, 0, 0] +
    [0, 0, 0, 0, 0, 0, 0, 0, 0, 0, 0, 0, 0, 0, 0, 0, 0, 0, 0, 0, 0, 0, 0, 0, 0, 0, 0, 0, 0, 0, 0, 0]

  /** `HEX_DIGITS`: the bytes of `0123456789ABCDEF`. */
  const HexDigits: seq<Byte> :=
    [48, 49, 50, 51, 52, 53, 54, 55, 56, 57, 65, 66, 67, 68, 69, 70]

  /** `preprocess_ascii_convertable`: starts from an all-zero table and sets
      each entry from the rule, index by index. The result equals the
      constant table, as the crate's unit test asserts. */
  method PreprocessAsciiConvertable() returns (table: seq<Byte>)
    ensures |table| == 256
    ensures forall b: Byte :: table[b] == RuleEntry(b)
    ensures table == PreprocessedArray
  {
    var a := new Byte[256](_ => 0);
    for index := 0 to 256
      invariant forall j :: 0 <= j < index ==> a[j] == RuleEntry(j)
      invariant forall j :: index <= j < 256 ==> a[j] == 0
    {
      if IsUnreserved(index) {
        a[index] := 1;
      } else {
        a[index] := 0;
      }
    }
    table := a[..];
    forall b: Byte ensures PreprocessedArray[b] == table[b] {
      PreprocessedArrayFollowsRule(b);
    }
  }

  // The constant table checked against the rule, one group of rows at a time.

  lemma ControlRowFollowsRule(b: Byte)
    requires b < 32
    ensures |PreprocessedArray| == 256 && PreprocessedArray[b] == RuleEntry(b)
  {
  }

  lemma SymbolAndDigitRowFollowsRule(b: Byte)
    requires 32 <= b < 64
    ensures |PreprocessedArray| == 256 && PreprocessedArray[b] == RuleEntry(b)
  {
  }

  lemma UpperRowFollowsRule(b: Byte)
    requires 64 <= b < 96
    ensures |PreprocessedArray| == 256 && PreprocessedArray[b] == RuleEntry(b)
  {
  }

  lemma LowerRowFollowsRule(b: Byte)
    requires 96 <= b < 128
    ensures |PreprocessedArray| == 256 && PreprocessedArray[b] == RuleEntry(b)
  {
  }

  lemma NonAsciiRowsFollowRule(b: Byte)
    requires 128 <= b
    ensures |PreprocessedArray| == 256 && PreprocessedArray[b] == RuleEntry(b)
  {
  }

  /** Every entry of the constant table is the one the rule gives. */
  lemma PreprocessedArrayFollowsRule(b: Byte)
    ensures |PreprocessedArray| == 256
    ensures PreprocessedArray[b] == 1 <==> IsUnreserved(b)
    ensures PreprocessedArray[b] == RuleEntry(b)
  {
    if b < 32 {
      ControlRowFollowsRule(b);
    } else if b < 64 {
      SymbolAndDigitRowFollowsRule(b);
    } else if b < 96 {
      UpperRowFollowsRule(b);
    } else if b < 128 {
      LowerRowFollowsRule(b);
    } else {
      NonAsciiRowsFollowRule(b);
    }
  }

  /** Every entry is a flag (0 or 1), and no byte outside ASCII is copied. */
  lemma PreprocessedArrayIsAsciiFlags(b: Byte)
    ensures PreprocessedArray[b] == 0 || PreprocessedArray[b] == 1
    ensures b >= 128 ==> PreprocessedArray[b] == 0
  {
    PreprocessedArrayFollowsRule(b);
  }

  /** `%` (0x25) and `+` (0x2B) are both marked for escaping, so neither can
      leave the encoder unescaped. */
  lemma PercentAndPlusAreEscaped()
    ensures PreprocessedArray['%' as int] == 0 && PreprocessedArray['+' as int] == 0
  {
    PreprocessedArrayFollowsRule('%' as int);
    PreprocessedArrayFollowsRule('+' as int);
  }

  /** `HEX_DIGITS` holds `0`..`9` at indices 0-9 and `A`..`F` at 10-15. */
  lemma HexDigitsAlphabet(v: nat)
    requires v < 16
    ensures |HexDigits| == 16
    ensures v < 10 ==> HexDigits[v] == '0' as int + v
    ensures 10 <= v ==> HexDigits[v] == 'A' as int + (v - 10)
  {
  }

  /** `HEX_BYTE_TO_HEX_VALUE`, the `i16` table `from_hex` reads: the value
      of a hex digit of either case, and -1 for every other byte. */
  function HexByteToHexValue(c: Byte): (v: int)
    ensures -1 <= v < 16
  {
    if '0' as int <= c <= '9' as int then c - '0' as int
    else if 'A' as int <= c <= 'F' as int then c - 'A' as int + 10
    else if 'a' as int <= c <= 'f' as int then c - 'a' as int + 10
    else -1
  }
}
