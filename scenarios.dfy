/** Scenarios of the crate's integration tests (tests/integration_tests.rs),
    stated on the model. */
module Scenarios {
  import opened Preprocessing
  import opened UrlEncor

  /** The bytes of a string whose characters are all below 256. */
  function Latin1(s: string): (r: seq<Byte>)
    requires forall i :: 0 <= i < |s| ==> s[i] as int < 256
    ensures |r| == |s| && forall i :: 0 <= i < |s| ==> r[i] == s[i] as int
  {
    seq(|s|, i requires 0 <= i < |s| => s[i] as int)
  }

  // Each concrete fact is proved in a lemma of its own, so that the solver
  // never has more than one string literal to unfold at a time.

  lemma EncodeEscapedPieces()
    ensures Encoded(Latin1(", ")) == Latin1("%2C%20")
    ensures Encoded(Latin1("!")) == Latin1("%21")
    ensures Encoded(Latin1("@")) == Latin1("%40")
  {
  }

  /** Encoding a text whose first and third parts are unreserved. */
  lemma EncodeAroundUnreserved(a: seq<Byte>, b: seq<Byte>, c: seq<Byte>, d: seq<Byte>)
    requires Encoded(a) == a && Encoded(c) == c
    ensures Encoded(a + b + c + d) == a + Encoded(b) + c + Encoded(d)
  {
    EncodedConcat(a, b);
    EncodedConcat(a + b, c);
    EncodedConcat(a + b + c, d);
  }

  lemma HelloAndWorldAreUnreserved()
    ensures Encoded(Latin1("Hello")) == Latin1("Hello")
    ensures Encoded(Latin1("World")) == Latin1("World")
  {
    var hello, world := Latin1("Hello"), Latin1("World");
    assert forall i :: 0 <= i < |hello| ==> IsUnreserved(hello[i]);
    assert forall i :: 0 <= i < |world| ==> IsUnreserved(world[i]);
    EncodedIsIdentityIff(hello);
    EncodedIsIdentityIff(world);
  }

  lemma UserAndDomainAreUnreserved()
    ensures Encoded(Latin1("user")) == Latin1("user")
    ensures Encoded(Latin1("example.com")) == Latin1("example.com")
  {
    var user, domain := Latin1("user"), Latin1("example.com");
    assert forall i :: 0 <= i < |user| ==> IsUnreserved(user[i]);
    assert forall i :: 0 <= i < |domain| ==> IsUnreserved(domain[i]);
    EncodedIsIdentityIff(user);
    EncodedIsIdentityIff(domain);
  }

  lemma HelloWorldPieces()
    ensures Latin1("Hello, World!") == Latin1("Hello") + Latin1(", ") + Latin1("World") + Latin1("!")
    ensures Latin1("Hello%2C%20World%21") == Latin1("Hello") + Latin1("%2C%20") + Latin1("World") + Latin1("%21")
  {
  }

  lemma EmailPieces()
    ensures Latin1("user@example.com") == Latin1("user") + Latin1("@") + Latin1("example.com")
    ensures Latin1("user%40example.com") == Latin1("user") + Latin1("%40") + Latin1("example.com")
  {
  }

  /** Examples of the crate's encoding tests. */
  lemma EncodeHelloWorld()
    ensures Encoded(Latin1("Hello, World!")) == Latin1("Hello%2C%20World%21")
  {
    EncodeEscapedPieces();
    HelloAndWorldAreUnreserved();
    HelloWorldPieces();
    EncodeAroundUnreserved(Latin1("Hello"), Latin1(", "), Latin1("World"), Latin1("!"));
  }

  lemma EncodeUnreservedExample()
    ensures Encoded(Latin1("abc123")) == Latin1("abc123")
  {
    var s := Latin1("abc123");
    assert forall i :: 0 <= i < |s| ==> IsUnreserved(s[i]);
    EncodedIsIdentityIff(s);
  }

  lemma EncodeEmailExample()
    ensures Encoded(Latin1("user@example.com")) == Latin1("user%40example.com")
  {
    EncodeEscapedPieces();
    UserAndDomainAreUnreserved();
    EmailPieces();
    var user, at, domain := Latin1("user"), Latin1("@"), Latin1("example.com");
    EncodedConcat(user, at);
    EncodedConcat(user + at, domain);
  }

  /** The UTF-8 bytes of `世` and `界`. */
  const World1: seq<Byte> := [0xE4, 0xB8, 0x96]
  const World2: seq<Byte> := [0xE7, 0x95, 0x8C]

  /** The UTF-8 bytes of `, 世界!`: none of them is unreserved. */
  const CommaWorldInChinese: seq<Byte> := Latin1(", ") + World1 + World2 + Latin1("!")

  lemma EncodeChineseCharacters()
    ensures Encoded(World1) == Latin1("%E4%B8%96")
    ensures Encoded(World2) == Latin1("%E7%95%8C")
  {
  }

  lemma MixedContentEscapes()
    ensures Latin1("%2C%20%E4%B8%96%E7%95%8C%21") ==
            Latin1("%2C%20") + Latin1("%E4%B8%96") + Latin1("%E7%95%8C") + Latin1("%21")
  {
  }

  lemma EncodeCommaWorldInChinese()
    ensures Encoded(CommaWorldInChinese) == Latin1("%2C%20%E4%B8%96%E7%95%8C%21")
  {
    EncodeEscapedPieces();
    EncodeChineseCharacters();
    MixedContentEscapes();
    EncodedConcat(Latin1(", "), World1);
    EncodedConcat(Latin1(", ") + World1, World2);
    EncodedConcat(Latin1(", ") + World1 + World2, Latin1("!"));
  }

  lemma MixedContentPieces()
    ensures Latin1("Hello%2C%20%E4%B8%96%E7%95%8C%21") == Latin1("Hello") + Latin1("%2C%20%E4%B8%96%E7%95%8C%21")
  {
  }

  /** Bytes of 128 and above are escaped like any other reserved byte
      (`Hello, 世界!` given as its UTF-8 bytes). */
  lemma EncodeMixedContent()
    ensures Encoded(Latin1("Hello") + CommaWorldInChinese) == Latin1("Hello%2C%20%E4%B8%96%E7%95%8C%21")
  {
    HelloAndWorldAreUnreserved();
    EncodeCommaWorldInChinese();
    MixedContentPieces();
    EncodedConcat(Latin1("Hello"), CommaWorldInChinese);
  }

  /** The decoding half: escapes of bytes above 127 give those bytes back. */
  lemma DecodeMixedContent()
    ensures Decoded(Latin1("Hello%2C%20%E4%B8%96%E7%95%8C%21")) == Latin1("Hello") + CommaWorldInChinese
  {
    EncodeMixedContent();
    DecodeEncodeRoundTrip(Latin1("Hello") + CommaWorldInChinese);
  }

  /** Examples of the crate's tests of malformed escapes. */
  lemma DecodeLonePercent()
    ensures Decoded(Latin1("%")) == Latin1("%")
  {
  }

  lemma DecodePercentOneDigit()
    ensures Decoded(Latin1("%2")) == Latin1("%2")
  {
  }

  lemma DecodePercentBadDigit()
    ensures Decoded(Latin1("%2G")) == Latin1("%2G")
  {
  }

  lemma TrailingPercentBytes()
    ensures Latin1("100%") == [0x31] + ([0x30] + ([0x30] + ([Percent] + [])))
  {
  }

  lemma DecodeTrailingPercent()
    ensures Decoded(Latin1("100%")) == Latin1("100%")
  {
    TrailingPercentBytes();
    DecodeShortPercent([]);
    DecodeOther(0x30, [Percent] + []);
    DecodeOther(0x30, [0x30] + ([Percent] + []));
    DecodeOther(0x31, [0x30] + ([0x30] + ([Percent] + [])));
  }

  /** Text without `%` and `+`. */
  predicate NoEscapeBytes(s: seq<Byte>) {
    forall i :: 0 <= i < |s| ==> s[i] != Percent && s[i] != Plus
  }

  lemma HelloAndWorldHaveNoEscapeBytes()
    ensures NoEscapeBytes(Latin1("Hello")) && NoEscapeBytes(Latin1("World"))
  {
  }

  /** Decoding a `+` between two texts without `%` and `+`. */
  lemma DecodeAroundPlus(a: seq<Byte>, c: seq<Byte>)
    requires NoEscapeBytes(a) && NoEscapeBytes(c)
    ensures Decoded(a + ([Plus] + c)) == a + ([Space] + c)
  {
    DecodedIsIdentity(a);
    DecodedIsIdentity(c);
    DecodePlus(c);
    DecodedConcat(a, [Plus] + c);
  }

  lemma PlusPieces()
    ensures Latin1("Hello+World") == Latin1("Hello") + ([Plus] + Latin1("World"))
    ensures Latin1("Hello World") == Latin1("Hello") + ([Space] + Latin1("World"))
  {
  }

  /** Examples of the crate's `+` tests, and hex read in either case. */
  lemma DecodePlusHelloWorld()
    ensures Decoded(Latin1("Hello+World")) == Latin1("Hello World")
  {
    PlusPieces();
    HelloAndWorldHaveNoEscapeBytes();
    DecodeAroundPlus(Latin1("Hello"), Latin1("World"));
  }

  lemma PlusDigitsBytes()
    ensures Latin1("1+2+3") == [0x31] + ([Plus] + ([0x32] + ([Plus] + ([0x33] + []))))
    ensures Latin1("1 2 3") == [0x31] + ([Space] + ([0x32] + ([Space] + ([0x33] + []))))
  {
  }

  lemma DecodePlusDigits()
    ensures Decoded(Latin1("1+2+3")) == Latin1("1 2 3")
  {
    PlusDigitsBytes();
    DecodeOther(0x33, []);
    DecodePlus([0x33] + []);
    DecodeOther(0x32, [Plus] + ([0x33] + []));
    DecodePlus([0x32] + ([Plus] + ([0x33] + [])));
    DecodeOther(0x31, [Plus] + ([0x32] + ([Plus] + ([0x33] + []))));
  }

  lemma DecodeEitherCase()
    ensures Decoded(Latin1("%2c")) == Decoded(Latin1("%2C")) == Latin1(",")
  {
  }

  /** The decoding half of the crate's first round-trip scenario. */
  lemma DecodeHelloWorld()
    ensures Decoded(Latin1("Hello%2C%20World%21")) == Latin1("Hello, World!")
  {
    EncodeHelloWorld();
    DecodeEncodeRoundTrip(Latin1("Hello, World!"));
  }
}
