/** Bytes as Go's `byte`, and the handful of byte constants the scanner and the unquoter look for. */
module Bytes {

  type byte = b: int | 0 <= b < 256

  const ESC: byte := 0x1B
  const NEWLINE: byte := 0x0A
  const QUOTE: byte := 0x22          // "
  const APOSTROPHE: byte := 0x27     // '
  const SLASH: byte := 0x2F          // /
  const LBRACKET: byte := 0x5B       // [
  const BACKSLASH: byte := 0x5C      // \
  const LBRACE: byte := 0x7B         // {
  const LETTER_M: byte := 0x6D       // m

  /** The first byte of `s` opens a JSON object or array. */
  predicate OpensJson(s: seq<byte>) {
    |s| > 0 && (s[0] == LBRACE || s[0] == LBRACKET)
  }

  /** `s` holds a backslash immediately followed by a double quote somewhere. */
  predicate HasBackslashQuote(s: seq<byte>) {
    exists k :: 0 <= k < |s| - 1 && s[k] == BACKSLASH && s[k + 1] == QUOTE
  }
}
