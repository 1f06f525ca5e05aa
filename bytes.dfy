/** Bytes as the source sees them: an `OsString` or `PathBuf` on a Unix
    target is an arbitrary byte sequence, and `OsStr::to_str` accepts it
    exactly when it is well-formed UTF-8. */
module Bytes {

  /** An unsigned 8-bit value (Rust `u8`). */
  newtype byte = b: int | 0 <= b < 256

  /** A continuation byte of a multi-byte UTF-8 sequence: 10xxxxxx. */
  predicate IsContinuation(b: byte) {
    0x80 <= b <= 0xBF
  }

  /** Well-formed UTF-8 (Table 3-7 of the Unicode Standard, as enforced by
      Rust's `str::from_utf8`): no overlong forms, no surrogates, nothing
      above U+10FFFF. */
  predicate ValidUtf8(s: seq<byte>)
    decreases |s|
  {
    if s == [] then true
    else if s[0] < 0x80 then ValidUtf8(s[1..])
    else if 0xC2 <= s[0] <= 0xDF then
      |s| >= 2 && IsContinuation(s[1]) && ValidUtf8(s[2..])
    else if s[0] == 0xE0 then
      |s| >= 3 && 0xA0 <= s[1] <= 0xBF && IsContinuation(s[2]) && ValidUtf8(s[3..])
    else if 0xE1 <= s[0] <= 0xEC || 0xEE <= s[0] <= 0xEF then
      |s| >= 3 && IsContinuation(s[1]) && IsContinuation(s[2]) && ValidUtf8(s[3..])
    else if s[0] == 0xED then
      |s| >= 3 && 0x80 <= s[1] <= 0x9F && IsContinuation(s[2]) && ValidUtf8(s[3..])
    else if s[0] == 0xF0 then
      |s| >= 4 && 0x90 <= s[1] <= 0xBF && IsContinuation(s[2]) && IsContinuation(s[3])
      && ValidUtf8(s[4..])
    else if 0xF1 <= s[0] <= 0xF3 then
      |s| >= 4 && IsContinuation(s[1]) && IsContinuation(s[2]) && IsContinuation(s[3])
      && ValidUtf8(s[4..])
    else if s[0] == 0xF4 then
      |s| >= 4 && 0x80 <= s[1] <= 0x8F && IsContinuation(s[2]) && IsContinuation(s[3])
      && ValidUtf8(s[4..])
    else false
  }

  /** A one-byte text is valid exactly when that byte is ASCII. */
  lemma SingleByteUtf8(b: byte)
    ensures ValidUtf8([b]) <==> b < 0x80
  {
  }
}
