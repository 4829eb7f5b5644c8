/**
 * UTF-8 validation and decoding as `String::from_utf8` performs it: the
 * well-formed byte sequences of RFC 3629 (no overlong forms, no surrogates,
 * nothing above U+10FFFF).
 */
module Utf8 {
  import opened Wrappers

  type byte = b: int | 0 <= b < 256
  type Bytes = seq<byte>

  predicate IsContinuation(b: byte) {
    0x80 <= b <= 0xBF
  }

  /** Allowed second bytes of a three-byte sequence, by lead byte (excludes overlongs and surrogates). */
  predicate SecondOf3(b0: byte, b1: byte) {
    if b0 == 0xE0 then 0xA0 <= b1 <= 0xBF
    else if b0 == 0xED then 0x80 <= b1 <= 0x9F
    else IsContinuation(b1)
  }

  /** Allowed second bytes of a four-byte sequence, by lead byte (excludes overlongs and values above U+10FFFF). */
  predicate SecondOf4(b0: byte, b1: byte) {
    if b0 == 0xF0 then 0x90 <= b1 <= 0xBF
    else if b0 == 0xF4 then 0x80 <= b1 <= 0x8F
    else IsContinuation(b1)
  }

  /** The character encoded at the start of `b` and the number of bytes it takes, if the start is well formed. */
  function DecodeFirst(b: Bytes): (r: Option<(char, nat)>)
    requires |b| > 0
    ensures r.Some? ==> 1 <= r.value.1 <= |b| && r.value.1 <= 4
    ensures r.Some? && b[0] < 0x80 ==> r.value == (b[0] as char, 1)
    ensures b[0] < 0x80 ==> r.Some?
  {
    var b0: int := b[0];
    if b0 < 0x80 then
      Some((b0 as char, 1))
    else if 0xC2 <= b0 <= 0xDF then
      if |b| >= 2 && IsContinuation(b[1]) then
        Some((((b0 - 0xC0) * 0x40 + (b[1] as int - 0x80)) as char, 2))
      else None
    else if 0xE0 <= b0 <= 0xEF then
      if |b| >= 3 && SecondOf3(b0, b[1]) && IsContinuation(b[2]) then
        Some((((b0 - 0xE0) * 0x1000 + (b[1] as int - 0x80) * 0x40 + (b[2] as int - 0x80)) as char, 3))
      else None
    else if 0xF0 <= b0 <= 0xF4 then
      if |b| >= 4 && SecondOf4(b0, b[1]) && IsContinuation(b[2]) && IsContinuation(b[3]) then
        Some((((b0 - 0xF0) * 0x40000 + (b[1] as int - 0x80) * 0x1000 + (b[2] as int - 0x80) * 0x40 + (b[3] as int - 0x80)) as char, 4))
      else None
    else None
  }

  /** `String::from_utf8`: the decoded text, or `None` when the bytes are not well-formed UTF-8. */
  function Decode(b: Bytes): (r: Option<string>)
    ensures b == [] ==> r == Some("")
    ensures r.Some? ==> |r.value| <= |b|
    decreases |b|
  {
    if b == [] then Some("")
    else
      match DecodeFirst(b)
      case None => None
      case Some((c, n)) =>
        match Decode(b[n..])
        case None => None
        case Some(rest) => Some([c] + rest)
  }

  predicate IsAscii(b: Bytes) {
    forall i :: 0 <= i < |b| ==> b[i] < 0x80
  }

  /** The characters of ASCII bytes, one per byte. */
  function AsciiChars(b: Bytes): (s: string)
    requires IsAscii(b)
    ensures |s| == |b|
  {
    seq(|b|, i requires 0 <= i < |b| => b[i] as char)
  }

  /** The bytes of an ASCII string. */
  function AsciiBytes(s: string): (b: Bytes)
    requires forall i :: 0 <= i < |s| ==> s[i] < 128 as char
    ensures |b| == |s| && IsAscii(b)
  {
    seq(|s|, i requires 0 <= i < |s| => s[i] as int)
  }

  /** Every ASCII byte string is valid UTF-8 and decodes to one character per byte. */
  lemma {:induction false} DecodeAscii(b: Bytes)
    requires IsAscii(b)
    ensures Decode(b) == Some(AsciiChars(b))
  {
    if b != [] {
      DecodeAscii(b[1..]);
      assert AsciiChars(b) == [b[0] as char] + AsciiChars(b[1..]);
    }
  }

  /** An ASCII string survives encoding and decoding unchanged. */
  lemma DecodeAsciiBytes(s: string)
    requires forall i :: 0 <= i < |s| ==> s[i] < 128 as char
    ensures Decode(AsciiBytes(s)) == Some(s)
  {
    DecodeAscii(AsciiBytes(s));
    assert AsciiChars(AsciiBytes(s)) == s;
  }

  /** A byte that can neither start nor continue a character (0xC0, 0xC1, 0xF5..0xFF) anywhere at the start makes the whole body invalid. */
  lemma InvalidLeadRejected(b: Bytes)
    requires |b| > 0 && (b[0] == 0xC0 || b[0] == 0xC1 || b[0] >= 0xF5)
    ensures Decode(b) == None
  {
  }
}
