/** The percent-encoding codec of the url_encor crate (src/lib.rs): `encode`,
    `decode` and `from_hex`, on byte sequences. */
module UrlEncor {
  import opened Preprocessing

  datatype Option<T> = None | Some(value: T)

  const Percent: Byte := '%' as int
  const Plus: Byte := '+' as int
  const Space: Byte := ' ' as int

  /** True for the bytes of `0`-`9`, `A`-`F` and `a`-`f`. */
  predicate IsHexDigit(c: Byte) {
    ('0' as int <= c <= '9' as int) || ('A' as int <= c <= 'F' as int) ||
    ('a' as int <= c <= 'f' as int)
  }

  /** ASCII lower-case letters mapped to upper case; every other byte kept. */
  function ToUpperAscii(c: Byte): Byte {
    if 'a' as int <= c <= 'z' as int then c - 32 else c
  }

  /** `from_hex`: the table entry converted to `u8`, which fails exactly for
      the -1 sentinel. The value found is the position in `HEX_DIGITS` of the
      digit, after folding lower case to upper case. */
  function FromHex(c: Byte): (r: Option<Byte>)
    ensures r.Some? <==> HexByteToHexValue(c) != -1
    ensures r.Some? <==> IsHexDigit(c)
    ensures r.Some? ==> r.value < 16 && HexDigits[r.value] == ToUpperAscii(c)
  {
    var v := HexByteToHexValue(c);
    if 0 <= v < 256 then Some(v) else None
  }

  /** `from_hex` inverts `HEX_DIGITS`. */
  lemma FromHexOfHexDigit(v: nat)
    requires v < 16
    ensures FromHex(HexDigits[v]) == Some(v)
  {
    HexDigitsAlphabet(v);
  }

  /** Hex digits are read case-insensitively. */
  lemma FromHexIgnoresCase(c: Byte)
    requires 'a' as int <= c <= 'f' as int
    ensures FromHex(c).Some? && FromHex(c) == FromHex(c - 32)
  {
  }

  // ---------------------------------------------------------------- encode

  /** What `encode` appends for one input byte: the byte itself when it is
      unreserved (its `PREPROCESSED_ARRAY` entry is 1, by
      `PreprocessedArrayFollowsRule`), otherwise `%` and the two upper-case hex
      digits of its high and low nibble (section 2.1 of RFC 3986). */
  function EncodeByte(b: Byte): (r: seq<Byte>)
    ensures IsUnreserved(b) ==> r == [b]
    ensures !IsUnreserved(b) ==>
      |r| == 3 && r[0] == Percent && FromHex(r[1]) == Some(b / 16) && FromHex(r[2]) == Some(b % 16) &&
      ToUpperAscii(r[1]) == r[1] && ToUpperAscii(r[2]) == r[2]
  {
    FromHexOfHexDigit(b / 16);
    FromHexOfHexDigit(b % 16);
    HexDigitsAlphabet(b / 16);
    HexDigitsAlphabet(b % 16);
    if IsUnreserved(b) then [b] else [Percent, HexDigits[b / 16], HexDigits[b % 16]]
  }

  /** The output of `encode`: each input byte's encoding, in input order. It
      is at least as long as the input and at most three times as long. */
  function Encoded(s: seq<Byte>): (r: seq<Byte>)
    ensures |s| <= |r| <= 3 * |s|
  {
    if s == [] then [] else EncodeByte(s[0]) + Encoded(s[1..])
  }

  /** `encode`: one pass over the input, pushing one or three bytes per input
      byte into the output buffer. */
  method Encode(input: seq<Byte>) returns (encoded: seq<Byte>)
    ensures encoded == Encoded(input)
  {
    encoded := [];
    for i := 0 to |input|
      invariant encoded == Encoded(input[..i])
    {
      var currentByte := input[i];
      ghost var before := encoded;
      if PreprocessedArray[currentByte] == 0 {
        encoded := encoded + [Percent];
        encoded := encoded + [HexDigits[currentByte / 16]];
        encoded := encoded + [HexDigits[currentByte % 16]];
      } else {
        encoded := encoded + [currentByte];
      }
      PreprocessedArrayFollowsRule(currentByte);
      assert encoded == before + EncodeByte(currentByte);
      assert Encoded([currentByte]) == EncodeByte(currentByte) + Encoded([]);
      EncodedConcat(input[..i], [currentByte]);
      assert input[..i + 1] == input[..i] + [currentByte];
    }
    assert input[..|input|] == input;
  }

  /** Encoding distributes over concatenation. */
  lemma {:induction false} EncodedConcat(a: seq<Byte>, b: seq<Byte>)
    ensures Encoded(a + b) == Encoded(a) + Encoded(b)
  {
    if a == [] {
      assert a + b == b;
    } else {
      assert (a + b)[1..] == a[1..] + b;
      EncodedConcat(a[1..], b);
    }
  }

  /** The number of bytes of `s` that `encode` copies unchanged. */
  function SafeCount(s: seq<Byte>): (n: nat)
    ensures n <= |s|
  {
    if s == [] then 0 else (if IsUnreserved(s[0]) then 1 else 0) + SafeCount(s[1..])
  }

  /** Each copied byte costs one output byte and each escaped byte three. */
  lemma {:induction false} EncodedLength(s: seq<Byte>)
    ensures |Encoded(s)| == SafeCount(s) + 3 * (|s| - SafeCount(s))
    ensures |s| <= |Encoded(s)| <= 3 * |s|
  {
    if s != [] {
      EncodedLength(s[1..]);
    }
  }

  /** Input made only of bytes that need escaping triples in length. */
  lemma {:induction false} EncodedAllEscaped(s: seq<Byte>)
    requires forall i :: 0 <= i < |s| ==> !IsUnreserved(s[i])
    ensures |Encoded(s)| == 3 * |s|
  {
    if s != [] {
      EncodedAllEscaped(s[1..]);
    }
  }

  /** `encode` leaves its input unchanged exactly when every byte is
      unreserved. */
  lemma {:induction false} EncodedIsIdentityIff(s: seq<Byte>)
    ensures Encoded(s) == s <==> forall i :: 0 <= i < |s| ==> IsUnreserved(s[i])
  {
    if s != [] {
      if !IsUnreserved(s[0]) {
        EncodedLength(s[1..]);
      } else {
        EncodedIsIdentityIff(s[1..]);
        assert Encoded(s) == [s[0]] + Encoded(s[1..]);
        assert Encoded(s) == s <==> Encoded(s[1..]) == s[1..];
        assert (forall i :: 0 <= i < |s| ==> IsUnreserved(s[i])) <==>
               (forall i :: 0 <= i < |s[1..]| ==> IsUnreserved(s[1..][i]));
      }
    }
  }

  /** Every output byte is ASCII (so each `char` pushed is one byte): an
      unreserved byte or `%`, and in particular never `+`. */
  lemma {:induction false} EncodedAlphabet(s: seq<Byte>, j: nat)
    requires j < |Encoded(s)|
    ensures IsUnreserved(Encoded(s)[j]) || Encoded(s)[j] == Percent
    ensures Encoded(s)[j] < 128 && Encoded(s)[j] != Plus
  {
    var head := EncodeByte(s[0]);
    if j < |head| {
      if !IsUnreserved(s[0]) {
        HexDigitsAlphabet(s[0] / 16);
        HexDigitsAlphabet(s[0] % 16);
      }
    } else {
      EncodedAlphabet(s[1..], j - |head|);
    }
  }

  // ---------------------------------------------------------------- decode

  /** One iteration of the decoding loop: the bytes it pushes and how far it
      moves the cursor. */
  datatype Step = Step(emitted: seq<Byte>, consumed: nat)

  /** The loop body of `decode` at a cursor whose remaining input is `s`: a
      `%` with two bytes after it consumes three, decoding them when both are
      hex digits and echoing them otherwise; `+` becomes a space; any other
      byte, including a `%` too close to the end, is copied. */
  function DecodeStep(s: seq<Byte>): (st: Step)
    requires |s| > 0
    ensures st.consumed == 1 || st.consumed == 3
    ensures st.consumed <= |s|
    ensures |st.emitted| <= st.consumed
  {
    if s[0] == Percent && 2 < |s| then
      match (FromHex(s[1]), FromHex(s[2]))
      case (Some(n1), Some(n2)) => Step([n1 * 16 + n2], 3)
      case _ => Step([Percent, s[1], s[2]], 3)
    else if s[0] == Plus then Step([Space], 1)
    else Step([s[0]], 1)
  }

  /** The output of `decode`, before its conversion to text: steps from the
      front of the input until it is used up. */
  function Decoded(s: seq<Byte>): (r: seq<Byte>)
    ensures |r| <= |s|
    decreases |s|
  {
    if s == [] then []
    else
      var st := DecodeStep(s);
      st.emitted + Decoded(s[st.consumed..])
  }

  /** `decode`: a cursor scan that pushes the decoded bytes. */
  method Decode(bytes: seq<Byte>) returns (decoded: seq<Byte>)
    ensures decoded == Decoded(bytes)
  {
    decoded := [];
    var i := 0;
    while i < |bytes|
      invariant 0 <= i <= |bytes|
      invariant decoded + Decoded(bytes[i..]) == Decoded(bytes)
    {
      ghost var before, st := decoded, DecodeStep(bytes[i..]);
      ghost var start := i;
      DecodedAt(bytes, i);
      assert bytes[i..][0] == bytes[i];
      if bytes[i] == Percent && i + 2 < |bytes| {
        assert bytes[i..][1] == bytes[i + 1] && bytes[i..][2] == bytes[i + 2];
        var hi := FromHex(bytes[i + 1]);
        var lo := FromHex(bytes[i + 2]);
        if hi.Some? && lo.Some? {
          decoded := decoded + [hi.value * 16 + lo.value];
        } else {
          decoded := decoded + [Percent];
          decoded := decoded + [bytes[i + 1]];
          decoded := decoded + [bytes[i + 2]];
        }
        i := i + 3;
      } else if bytes[i] == Plus {
        decoded := decoded + [Space];
        i := i + 1;
      } else {
        decoded := decoded + [bytes[i]];
        i := i + 1;
      }
      assert decoded == before + st.emitted && i == start + st.consumed;
      ghost var tail := Decoded(bytes[i..]);
      AppendIsAssociative(before, st.emitted, tail);
    }
    assert bytes[i..] == [];
  }

  /** Regrouping a concatenation, stated apart so that `Decode`'s loop body
      does not have to prove it among its other facts. */
  lemma AppendIsAssociative(a: seq<Byte>, b: seq<Byte>, c: seq<Byte>)
    ensures (a + b) + c == a + (b + c)
  {
  }

  /** Decoding from cursor `i` is one step followed by decoding from where
      that step leaves the cursor. */
  lemma DecodedAt(bytes: seq<Byte>, i: nat)
    requires i < |bytes|
    ensures i + DecodeStep(bytes[i..]).consumed <= |bytes|
    ensures Decoded(bytes[i..]) ==
            DecodeStep(bytes[i..]).emitted + Decoded(bytes[i + DecodeStep(bytes[i..]).consumed..])
  {
    var st := DecodeStep(bytes[i..]);
    assert bytes[i..][st.consumed..] == bytes[i + st.consumed..];
  }

  /** A valid escape `%XY` decodes to the byte whose nibbles are the values of
      X and Y. */
  lemma DecodeValidEscape(x: Byte, y: Byte, rest: seq<Byte>)
    requires FromHex(x).Some? && FromHex(y).Some?
    ensures Decoded([Percent, x, y] + rest) ==
            [FromHex(x).value * 16 + FromHex(y).value] + Decoded(rest)
  {
    var s := [Percent, x, y] + rest;
    assert s[3..] == rest;
  }

  /** A `%` followed by two bytes that are not both hex digits is echoed with
      those two bytes, which are not reinterpreted (a `+` among them stays). */
  lemma DecodeMalformedEscape(x: Byte, y: Byte, rest: seq<Byte>)
    requires FromHex(x).None? || FromHex(y).None?
    ensures Decoded([Percent, x, y] + rest) == [Percent, x, y] + Decoded(rest)
  {
    var s := [Percent, x, y] + rest;
    assert s[3..] == rest;
  }

  /** A `%` with fewer than two bytes after it is copied as a plain byte. */
  lemma DecodeShortPercent(tail: seq<Byte>)
    requires |tail| < 2
    ensures Decoded([Percent] + tail) == [Percent] + Decoded(tail)
  {
    var s := [Percent] + tail;
    assert s[1..] == tail;
  }

  /** `+` decodes to a space (application/x-www-form-urlencoded). */
  lemma DecodePlus(rest: seq<Byte>)
    ensures Decoded([Plus] + rest) == [Space] + Decoded(rest)
  {
    var s := [Plus] + rest;
    assert s[1..] == rest;
  }

  /** Any byte other than `%` and `+` is copied. */
  lemma DecodeOther(b: Byte, rest: seq<Byte>)
    requires b != Percent && b != Plus
    ensures Decoded([b] + rest) == [b] + Decoded(rest)
  {
    var s := [b] + rest;
    assert s[1..] == rest;
  }

  /** Input without `%` and `+` decodes to itself. */
  lemma {:induction false} DecodedIsIdentity(s: seq<Byte>)
    requires forall i :: 0 <= i < |s| ==> s[i] != Percent && s[i] != Plus
    ensures Decoded(s) == s
  {
    if s != [] {
      assert forall i :: 0 <= i < |s[1..]| ==> s[1..][i] != Percent && s[1..][i] != Plus;
      DecodedIsIdentity(s[1..]);
    }
  }

  /** Decoding splits at any point not inside an escape: here, where the first
      part holds no `%`. */
  lemma {:induction false} DecodedConcat(a: seq<Byte>, b: seq<Byte>)
    requires forall i :: 0 <= i < |a| ==> a[i] != Percent
    ensures Decoded(a + b) == Decoded(a) + Decoded(b)
  {
    if a == [] {
      assert a + b == b;
    } else {
      assert (a + b)[1..] == a[1..] + b;
      DecodedConcat(a[1..], b);
    }
  }

  /** One encoded byte followed by anything decodes to that byte first. */
  lemma DecodeEncodedByte(b: Byte, rest: seq<Byte>)
    ensures Decoded(EncodeByte(b) + rest) == [b] + Decoded(rest)
  {
    if IsUnreserved(b) {
      DecodeOther(b, rest);
    } else {
      var e := EncodeByte(b);
      assert e == [Percent, e[1], e[2]];
      DecodeValidEscape(e[1], e[2], rest);
    }
  }

  /** Round trip: decoding what `encode` produced gives back the input. */
  lemma {:induction false} DecodeEncodeRoundTrip(s: seq<Byte>)
    ensures Decoded(Encoded(s)) == s
  {
    if s != [] {
      DecodeEncodedByte(s[0], Encoded(s[1..]));
      DecodeEncodeRoundTrip(s[1..]);
    }
  }

  /** `encode` never maps two inputs to the same output. */
  lemma EncodedIsInjective(s: seq<Byte>, t: seq<Byte>)
    requires Encoded(s) == Encoded(t)
    ensures s == t
  {
    DecodeEncodeRoundTrip(s);
    DecodeEncodeRoundTrip(t);
  }

  // ------------------------------------------------ u8 arithmetic of the source

  /** `b >> 4` and `b & 0xF` on a `u8` are the quotient and remainder by 16
      that `EncodeByte` uses. */
  lemma NibblesOfByte(b: bv8)
    ensures (b >> 4) as int == b as int / 16
    ensures (b & 0xF) as int == b as int % 16
  {
  }

  /** `(n1 << 4) | n2` on two nibbles is the `n1 * 16 + n2` that
      `DecodeStep` pushes. */
  lemma CombineNibbles(n1: bv8, n2: bv8)
    requires n1 < 16 && n2 < 16
    ensures ((n1 << 4) | n2) as int == n1 as int * 16 + n2 as int
  {
  }
}
