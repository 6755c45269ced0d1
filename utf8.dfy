/** UTF-8 well-formedness, the check `String::from_utf8` makes before it accepts bytes as a
  * string. */
module Utf8 {
  import opened Ints

  /** UTF-8 well-formedness (the Unicode standard, table 3-7), which `String::from_utf8`
    * checks. */
  predicate Utf8Valid(s: Bytes)
    decreases |s|
  {
    if s == [] then true
    else if s[0] < 0x80 then Utf8Valid(s[1..])
    else if 0xC2 <= s[0] <= 0xDF then
      |s| >= 2 && Cont(s[1]) && Utf8Valid(s[2..])
    else if 0xE0 <= s[0] <= 0xEF then
      |s| >= 3 && Cont(s[2])
      && (if s[0] == 0xE0 then 0xA0 <= s[1] <= 0xBF else if s[0] == 0xED then 0x80 <= s[1] <= 0x9F else Cont(s[1]))
      && Utf8Valid(s[3..])
    else if 0xF0 <= s[0] <= 0xF4 then
      |s| >= 4 && Cont(s[2]) && Cont(s[3])
      && (if s[0] == 0xF0 then 0x90 <= s[1] <= 0xBF else if s[0] == 0xF4 then 0x80 <= s[1] <= 0x8F else Cont(s[1]))
      && Utf8Valid(s[4..])
    else false
  }

  /** A continuation byte. */
  predicate Cont(b: U8) {
    0x80 <= b <= 0xBF
  }

  /** ASCII text is UTF-8. */
  lemma {:induction false} AsciiIsUtf8(s: Bytes)
    requires forall i :: 0 <= i < |s| ==> s[i] < 0x80
    ensures Utf8Valid(s)
    decreases |s|
  {
    if s != [] {
      AsciiIsUtf8(s[1..]);
    }
  }
}
