/**
 * Well-formed UTF-8, the check `String::from_utf8` performs before it accepts a
 * byte sequence as text. The byte ranges are those of the Unicode Standard's
 * table of well-formed UTF-8 byte sequences (section 3.9): no overlong forms,
 * no surrogates (U+D800..U+DFFF), nothing above U+10FFFF.
 */
module Utf8 {
  import opened IntEncoding

  predicate InRange(b: Byte, lo: int, hi: int)
  {
    lo <= b <= hi
  }

  /** A continuation byte, 10xxxxxx. */
  predicate Cont(b: Byte)
  {
    InRange(b, 0x80, 0xBF)
  }

  predicate ValidUtf8(s: seq<Byte>)
    decreases |s|
  {
    if s == [] then true
    else if s[0] < 0x80 then ValidUtf8(s[1..])
    else if InRange(s[0], 0xC2, 0xDF) then
      |s| >= 2 && Cont(s[1]) && ValidUtf8(s[2..])
    else if InRange(s[0], 0xE0, 0xEF) then
      |s| >= 3 &&
      (if s[0] == 0xE0 then InRange(s[1], 0xA0, 0xBF)
       else if s[0] == 0xED then InRange(s[1], 0x80, 0x9F)
       else Cont(s[1])) &&
      Cont(s[2]) && ValidUtf8(s[3..])
    else if InRange(s[0], 0xF0, 0xF4) then
      |s| >= 4 &&
      (if s[0] == 0xF0 then InRange(s[1], 0x90, 0xBF)
       else if s[0] == 0xF4 then InRange(s[1], 0x80, 0x8F)
       else Cont(s[1])) &&
      Cont(s[2]) && Cont(s[3]) && ValidUtf8(s[4..])
    else false
  }

  /** A Rust `String`: bytes that are well-formed UTF-8. */
  type Utf8String = s: seq<Byte> | ValidUtf8(s) witness []
}
