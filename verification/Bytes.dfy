/** Byte strings, the characters the text formats single out, and searching in them. */
module Bytes {
  newtype Byte = x: int | 0 <= x < 0x100

  type ByteString = seq<Byte>

  /** Paths, ids and values, as the bytes of their text. */
  type Text = ByteString

  const TAB: Byte := 0x09
  const LINE_FEED: Byte := 0x0A
  const FORM_FEED: Byte := 0x0C
  const CARRIAGE_RETURN: Byte := 0x0D
  const SPACE: Byte := 0x20
  const QUOTE: Byte := 0x22
  const HASH: Byte := 0x23
  const DOLLAR: Byte := 0x24
  const MINUS: Byte := 0x2D
  const FULL_STOP: Byte := 0x2E
  const SLASH: Byte := 0x2F
  const EQUALS: Byte := 0x3D
  const AT_SIGN: Byte := 0x40
  const OPENING_BRACKET: Byte := 0x5B
  const BACKSLASH: Byte := 0x5C
  const CLOSING_BRACKET: Byte := 0x5D
  const UNDERSCORE: Byte := 0x5F
  const BACKTICK: Byte := 0x60
  const LETTER_N: Byte := 0x6E
  const LETTER_R: Byte := 0x72
  const LETTER_S: Byte := 0x73
  const LETTER_T: Byte := 0x74
  const DELETE: Byte := 0x7F

  /** The first position of `b`, or the length of `s`. */
  function IndexOf(s: ByteString, b: Byte): (i: nat)
    ensures i <= |s| && (forall j :: 0 <= j < i ==> s[j] != b)
    ensures i < |s| ==> s[i] == b
  {
    if s == [] || s[0] == b then 0 else 1 + IndexOf(s[1..], b)
  }

  lemma IndexOfIs(s: ByteString, b: Byte, i: nat)
    requires i <= |s| && (forall j :: 0 <= j < i ==> s[j] != b) && (i < |s| ==> s[i] == b)
    ensures IndexOf(s, b) == i
  {
    assert IndexOf(s, b) >= i;
  }

  /** The codes of an ASCII text. */
  function Ascii(s: string): ByteString {
    seq(|s|, i requires 0 <= i < |s| => (s[i] as int % 0x100) as Byte)
  }

  lemma AsciiAppends(a: string, b: string)
    ensures Ascii(a + b) == Ascii(a) + Ascii(b)
  {
  }

  /** Concatenation of pieces. */
  function Concat(pieces: seq<ByteString>): ByteString {
    if pieces == [] then [] else pieces[0] + Concat(pieces[1..])
  }
}
