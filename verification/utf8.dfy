/**
 * Well-formed UTF-8, as `String::from_utf8` accepts it: the byte-sequence
 * grammar of section 4 of RFC 3629 (no overlong forms, no surrogates,
 * nothing above U+10FFFF).
 */
module Utf8 {
  import opened Bytes

  /** UTF8-tail = %x80-BF */
  predicate IsTail(b: u8) {
    0x80 <= b <= 0xBF
  }

  /**
   * How many bytes a UTF8-char with lead byte `b` has (UTF8-1 to UTF8-4),
   * or 0 when no UTF8-char starts with `b` (%x80-C1 and %xF5-FF).
   */
  function Width(b: u8): (w: nat)
    ensures w <= 4
  {
    if b <= 0x7F then 1
    else if 0xC2 <= b <= 0xDF then 2
    else if 0xE0 <= b <= 0xEF then 3
    else if 0xF0 <= b <= 0xF4 then 4
    else 0
  }

  /**
   * The range the grammar allows for the second byte after lead byte `b`:
   * narrower than UTF8-tail after %xE0, %xED, %xF0 and %xF4, which rules
   * out overlong forms, surrogates and values above U+10FFFF.
   */
  predicate SecondOk(b: u8, c: u8) {
    if b == 0xE0 then 0xA0 <= c <= 0xBF
    else if b == 0xED then 0x80 <= c <= 0x9F
    else if b == 0xF0 then 0x90 <= c <= 0xBF
    else if b == 0xF4 then 0x80 <= c <= 0x8F
    else IsTail(c)
  }

  /**
   * The length of the UTF8-char that starts at `s[i]`, or 0 when none
   * does there.
   */
  function CharLengthAt(s: seq<u8>, i: nat): (n: nat)
    ensures n <= 4 && (n > 0 ==> i + n <= |s|)
    ensures i < |s| && IsAscii(s[i]) ==> n == 1
  {
    if i >= |s| then 0
    else
      var w := Width(s[i]);
      if w == 0 || |s| - i < w then 0
      else if w == 1 then 1
      else if SecondOk(s[i], s[i + 1]) && (w < 3 || IsTail(s[i + 2])) && (w < 4 || IsTail(s[i + 3])) then w
      else 0
  }

  /** `s[i..]` is a sequence of UTF8-chars. */
  predicate ValidFrom(s: seq<u8>, i: nat)
    requires i <= |s|
    decreases |s| - i
  {
    i == |s| || (CharLengthAt(s, i) > 0 && ValidFrom(s, i + CharLengthAt(s, i)))
  }

  /** UTF8-octets = *( UTF8-char ) */
  predicate Valid(s: seq<u8>) {
    ValidFrom(s, 0)
  }

  /** Pure ASCII is well-formed UTF-8: every byte is a UTF8-1. */
  lemma {:induction false} AsciiIsValid(s: seq<u8>)
    requires AllAscii(s)
    ensures Valid(s)
  {
    AsciiIsValidFrom(s, 0);
  }

  lemma {:induction false} AsciiIsValidFrom(s: seq<u8>, i: nat)
    requires AllAscii(s) && i <= |s|
    ensures ValidFrom(s, i)
    decreases |s| - i
  {
    if i < |s| {
      AsciiIsValidFrom(s, i + 1);
    }
  }
}
