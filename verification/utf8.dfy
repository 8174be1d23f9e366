/**
  Bytes and the UTF-8 encoding form, as far as the interface-name code needs
  them: which bytes are continuation bytes, where a byte string may be cut
  without splitting a character, and which byte strings are well-formed UTF-8
  (the ABNF of UTF-8 byte sequences in RFC 3629, section 4).
 */
module Utf8 {

  /** An octet. */
  type Byte = b: int | 0 <= b < 0x100

  /** A continuation byte has the bit pattern `10xxxxxx`; it never starts a character. */
  predicate IsContinuation(b: Byte) {
    0x80 <= b < 0xC0
  }

  /** Index `i` of `s` is a character boundary when it is one of the two ends
      of `s` or the byte there is not a continuation byte.  This is the test
      Rust applies before it slices a `str` at `i`. */
  predicate IsCharBoundary(s: seq<Byte>, i: nat)
    requires i <= |s|
  {
    i == 0 || i == |s| || !IsContinuation(s[i])
  }

  /** The range of the second byte allowed after a given lead byte of a
      three- or four-byte character: it excludes overlong forms, the
      surrogates and code points above U+10FFFF. */
  function SecondByteLow(lead: Byte): Byte {
    if lead == 0xE0 then 0xA0 else if lead == 0xF0 then 0x90 else 0x80
  }

  function SecondByteHigh(lead: Byte): Byte {
    if lead == 0xED then 0x9F else if lead == 0xF4 then 0x8F else 0xBF
  }

  /** The number of bytes of the well-formed character at the front of `s`,
      or 0 when `s` is empty or does not start with a well-formed character. */
  function CharWidth(s: seq<Byte>): (w: nat)
    ensures w <= 4 && w <= |s|
    ensures w > 0 ==> !IsContinuation(s[0])
    ensures forall i :: 0 < i < w ==> IsContinuation(s[i])
  {
    if |s| == 0 then 0
    else if s[0] < 0x80 then 1
    else if 0xC2 <= s[0] <= 0xDF then
      if 2 <= |s| && IsContinuation(s[1]) then 2 else 0
    else if 0xE0 <= s[0] <= 0xEF then
      if 3 <= |s| && SecondByteLow(s[0]) <= s[1] <= SecondByteHigh(s[0])
         && IsContinuation(s[2])
      then 3 else 0
    else if 0xF0 <= s[0] <= 0xF4 then
      if 4 <= |s| && SecondByteLow(s[0]) <= s[1] <= SecondByteHigh(s[0])
         && IsContinuation(s[2]) && IsContinuation(s[3])
      then 4 else 0
    else 0
  }

  /** `s` is a sequence of well-formed UTF-8 characters. */
  predicate ValidUtf8(s: seq<Byte>)
    decreases |s|
  {
    |s| == 0 || (CharWidth(s) > 0 && ValidUtf8(s[CharWidth(s)..]))
  }

  /** The width of the first character depends only on the bytes it spans. */
  lemma CharWidthOfPrefix(s: seq<Byte>, k: nat)
    requires 0 < CharWidth(s) <= k <= |s|
    ensures CharWidth(s[..k]) == CharWidth(s)
  {
  }

  /** Cutting well-formed UTF-8 at a character boundary leaves well-formed
      UTF-8: no character is split. */
  lemma {:induction false} PrefixAtBoundaryIsValid(s: seq<Byte>, k: nat)
    requires ValidUtf8(s)
    requires k <= |s| && IsCharBoundary(s, k)
    ensures ValidUtf8(s[..k])
    decreases |s|
  {
    if k > 0 {
      var w := CharWidth(s);
      // A cut strictly inside the first character would sit on a continuation byte.
      assert w <= k;
      CharWidthOfPrefix(s, k);
      var rest := s[w..];
      assert IsCharBoundary(rest, k - w) by {
        if k < |s| { assert rest[k - w] == s[k]; }
      }
      PrefixAtBoundaryIsValid(rest, k - w);
      assert s[..k][w..] == rest[..k - w];
    }
  }
}
