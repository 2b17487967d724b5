/** Octets and the ASCII codes the RESP wire format is built from. */
module Bytes {

  /** One octet of the input stream (Rust's `u8`). */
  newtype u8 = x: int | 0 <= x < 0x100

  const CR: u8 := 13      // '\r'
  const LF: u8 := 10      // '\n'
  const CRLF: seq<u8> := [CR, LF]

  const PLUS: u8 := 43    // '+', simple string
  const MINUS: u8 := 45   // '-', error (and the minus sign of a decimal)
  const COLON: u8 := 58   // ':', integer
  const DOLLAR: u8 := 36  // '$', bulk string
  const STAR: u8 := 42    // '*', array
  const ZERO: u8 := 48    // '0'

  predicate IsAscii(b: u8) {
    b < 0x80
  }

  predicate AllAscii(s: seq<u8>) {
    forall i :: 0 <= i < |s| ==> IsAscii(s[i])
  }
}
