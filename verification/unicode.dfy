/**
  Character classes and the UTF-8 encoding that the tag validator relies on.

  A Rust `str` is UTF-8 text; in this model a string is a `seq<char>` of
  Unicode scalar values, and the byte view the validator inspects is
  recovered with `Encode`.
 */
module Unicode {

  /** One byte of UTF-8 text. */
  newtype byte = x: int | 0 <= x < 0x100

  /** Rust's `u8::is_ascii_graphic`: the bytes '!' (0x21) through '~' (0x7E). */
  predicate IsAsciiGraphicByte(b: byte) {
    0x21 <= b <= 0x7E
  }

  /** The character analogue of `IsAsciiGraphicByte`. */
  predicate IsGraphic(c: char) {
    '!' <= c <= '~'
  }

  /** Every character of `s` is ASCII-graphic. */
  predicate AllGraphic(s: string) {
    forall i :: 0 <= i < |s| ==> IsGraphic(s[i])
  }

  /**
    The Unicode `White_Space` property, which Rust's `char::is_whitespace`
    (and hence `str::trim`) tests: U+0009..U+000D, U+0020, U+0085, U+00A0,
    U+1680, U+2000..U+200A, U+2028, U+2029, U+202F, U+205F and U+3000.
   */
  predicate IsWhitespace(c: char)
    ensures c as int < 0x80 ==> (IsWhitespace(c) <==> c == ' ' || '\t' <= c <= '\r')
    ensures IsWhitespace(c) ==> !IsGraphic(c)
  {
    || ('\t' <= c <= '\r')
    || c == ' '
    || c == '\U{0085}'
    || c == '\U{00A0}'
    || c == '\U{1680}'
    || ('\U{2000}' <= c <= '\U{200A}')
    || c == '\U{2028}'
    || c == '\U{2029}'
    || c == '\U{202F}'
    || c == '\U{205F}'
    || c == '\U{3000}'
  }

  /** Every character of `s` is whitespace (vacuously so for the empty string). */
  predicate AllWhitespace(s: string) {
    forall i :: 0 <= i < |s| ==> IsWhitespace(s[i])
  }

  /** No whitespace character is ASCII-graphic: the two classes are disjoint. */
  lemma WhitespaceIsNotGraphic(c: char)
    ensures IsWhitespace(c) ==> !IsGraphic(c)
    ensures IsGraphic(c) ==> !IsWhitespace(c)
  {
  }

  /** The UTF-8 encoding of one scalar value (section 3 of RFC 3629). */
  function EncodeChar(c: char): (bytes: seq<byte>)
    ensures 1 <= |bytes| <= 4
    ensures c as int < 0x80 ==> bytes == [c as int as byte]
    ensures 0x80 <= c as int ==> forall i :: 0 <= i < |bytes| ==> 0x80 <= bytes[i]
  {
    var n := c as int;
    if n < 0x80 then
      [n as byte]
    else if n < 0x800 then
      [(0xC0 + n / 0x40) as byte, (0x80 + n % 0x40) as byte]
    else if n < 0x1_0000 then
      [(0xE0 + n / 0x1000) as byte, (0x80 + n / 0x40 % 0x40) as byte, (0x80 + n % 0x40) as byte]
    else
      [(0xF0 + n / 0x4_0000) as byte, (0x80 + n / 0x1000 % 0x40) as byte,
       (0x80 + n / 0x40 % 0x40) as byte, (0x80 + n % 0x40) as byte]
  }

  /** The UTF-8 byte sequence of a string: the encodings of its characters, in order. */
  function Encode(s: string): (bytes: seq<byte>)
    ensures |s| <= |bytes| <= 4 * |s|
  {
    if |s| == 0 then [] else EncodeChar(s[0]) + Encode(s[1..])
  }

  /** Rust's `bytes.any(|byte| !byte.is_ascii_graphic())`, scanning left to right. */
  predicate AnyNonGraphicByte(bytes: seq<byte>)
    decreases |bytes|
  {
    |bytes| > 0 && (!IsAsciiGraphicByte(bytes[0]) || AnyNonGraphicByte(bytes[1..]))
  }

  /** Rust's `s.bytes().any(|byte| !byte.is_ascii_graphic())` on the UTF-8 bytes of `s`. */
  predicate HasNonGraphicByte(s: string) {
    AnyNonGraphicByte(Encode(s))
  }

  /** The scan finds a non-graphic byte exactly when some byte is not graphic. */
  lemma {:induction false} AnyNonGraphicByteIffSome(bytes: seq<byte>)
    ensures AnyNonGraphicByte(bytes) <==> exists i :: 0 <= i < |bytes| && !IsAsciiGraphicByte(bytes[i])
    decreases |bytes|
  {
    if |bytes| > 0 {
      AnyNonGraphicByteIffSome(bytes[1..]);
      if exists i :: 0 <= i < |bytes| && !IsAsciiGraphicByte(bytes[i]) {
        var i :| 0 <= i < |bytes| && !IsAsciiGraphicByte(bytes[i]);
        if i > 0 {
          assert !IsAsciiGraphicByte(bytes[1..][i - 1]);
        }
      }
    }
  }

  /** A character's encoding is all ASCII-graphic bytes exactly when the character is ASCII-graphic. */
  lemma EncodeCharGraphic(c: char)
    ensures AnyNonGraphicByte(EncodeChar(c)) <==> !IsGraphic(c)
  {
    var bytes := EncodeChar(c);
    AnyNonGraphicByteIffSome(bytes);
    if c as int >= 0x80 {
      assert !IsAsciiGraphicByte(bytes[0]);
    } else {
      assert bytes == [c as int as byte];
      assert IsGraphic(c) <==> 0x21 <= c as int <= 0x7E;
      assert IsAsciiGraphicByte(bytes[0]) <==> IsGraphic(c);
    }
  }

  /** Scanning a concatenation finds a non-graphic byte when scanning either part does. */
  lemma {:induction false} AnyNonGraphicByteAppend(a: seq<byte>, b: seq<byte>)
    ensures AnyNonGraphicByte(a + b) <==> AnyNonGraphicByte(a) || AnyNonGraphicByte(b)
    decreases |a|
  {
    if |a| > 0 {
      assert (a + b)[1..] == a[1..] + b;
      AnyNonGraphicByteAppend(a[1..], b);
    } else {
      assert a + b == b;
    }
  }

  /**
    Checking the UTF-8 bytes of a string agrees with checking its
    characters: some byte is not ASCII-graphic exactly when some character
    lies outside '!'..'~'. Non-ASCII characters always fail, because every
    byte of a multi-byte encoding is at least 0x80.
   */
  lemma {:induction false} NonGraphicByteIffChar(s: string)
    ensures HasNonGraphicByte(s) <==> !AllGraphic(s)
    decreases |s|
  {
    if |s| > 0 {
      AnyNonGraphicByteAppend(EncodeChar(s[0]), Encode(s[1..]));
      EncodeCharGraphic(s[0]);
      NonGraphicByteIffChar(s[1..]);
      if !AllGraphic(s[1..]) {
        var j :| 0 <= j < |s[1..]| && !IsGraphic(s[1..][j]);
        assert !IsGraphic(s[j + 1]);
      }
      if !AllGraphic(s) && IsGraphic(s[0]) {
        var j :| 0 <= j < |s| && !IsGraphic(s[j]);
        assert !IsGraphic(s[1..][j - 1]);
      }
    }
  }
}
