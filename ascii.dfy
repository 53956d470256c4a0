/** Character classes over single bytes, as `isalpha` and `tolower` behave in the "C" locale. */
module Ascii {
  /** One byte of the input file. */
  newtype byte = x: int | 0 <= x < 256

  /** `fgetc`'s end-of-file marker. */
  const EOF: int := -1

  /** `isalpha` in the "C" locale: the ASCII letters A-Z and a-z. */
  predicate IsAlpha(c: int) {
    65 <= c <= 90 || 97 <= c <= 122
  }

  /** A lower-case ASCII letter, the only characters a word is made of. */
  predicate IsLowerLetter(ch: char) {
    'a' <= ch <= 'z'
  }

  /** `fgetc` on a file holding `bytes` whose position is `pos`: the byte there, or EOF past the end. */
  function Getc(bytes: seq<byte>, pos: int): (c: int)
    ensures c == EOF <==> !(0 <= pos < |bytes|)
    ensures c != EOF ==> c == bytes[pos] as int
  {
    if 0 <= pos < |bytes| then bytes[pos] as int else EOF
  }

  /** `tolower` applied to a letter and stored in a `char`. */
  function Lower(c: int): (ch: char)
    requires IsAlpha(c)
    ensures IsLowerLetter(ch)
    ensures ch as int == c || ch as int == c + 32
  {
    if c <= 90 then (c + 32) as char else c as char
  }

}
