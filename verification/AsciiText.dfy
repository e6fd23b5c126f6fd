/** Literal texts as bytes. */
module AsciiText {
  import opened Machine

  /** The byte of an ASCII character. */
  function Ascii(c: char): byte { c as int % 0x80 }

  function Text(s: string): (b: seq<byte>)
    ensures |b| == |s|
  {
    seq(|s|, i requires 0 <= i < |s| => Ascii(s[i]))
  }
}
