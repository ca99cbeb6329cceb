/** Bytes as the server reads and writes them, and the few byte-level notions
    the request check and the response framing are built from. */
module Bytes {

  /** An unsigned 8-bit value, Rust's `u8`. */
  newtype byte = x: int | 0 <= x < 256

  /** Carriage return and line feed. */
  const CR: byte := 13
  const LF: byte := 10

  /** Every character is 7-bit ASCII, so its UTF-8 encoding is one byte. */
  predicate IsAscii(s: string) {
    forall i | 0 <= i < |s| :: s[i] as int < 128
  }

  /** The UTF-8 bytes of an ASCII string: one byte per character, same code. */
  function Ascii(s: string): (r: seq<byte>)
    requires IsAscii(s)
    ensures |r| == |s|
    ensures forall i | 0 <= i < |s| :: r[i] as int == s[i] as int
  {
    seq(|s|, i requires 0 <= i < |s| => s[i] as int as byte)
  }

  /** Rust's `<[u8]>::starts_with`: the prefix is no longer than the slice and
      equals its first bytes. */
  predicate StartsWith(s: seq<byte>, prefix: seq<byte>) {
    |prefix| <= |s| && s[..|prefix|] == prefix
  }

  /** No carriage return and no line feed anywhere. */
  predicate NoCrLf(s: seq<byte>) {
    forall i | 0 <= i < |s| :: s[i] != CR && s[i] != LF
  }

}
