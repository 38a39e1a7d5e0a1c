/**
 * Bytes and well-formed UTF-8 text.
 *
 * A Rust `&str` is a byte slice that is always valid UTF-8; `String::toStr`
 * checks that property at run time and panics when it fails. Validity is
 * the grammar of section 4 of RFC 3629.
 */
module Utf8 {

  /** Rust's `u8`. */
  type u8 = bv8

  /** UTF8-tail = %x80-BF */
  predicate IsTail(b: u8) {
    0x80 <= b <= 0xBF
  }

  /**
   * The number of bytes of the well-formed UTF-8 character that starts `s`,
   * or 0 when `s` does not start with one.
   */
  function LeadWidth(s: seq<u8>): (w: nat)
    ensures w <= 4 && w <= |s|
    ensures w > 0 ==> |s| > 0
  {
    if |s| == 0 then 0
    else
      var b := s[0];
      if b <= 0x7F then 1
      else if 0xC2 <= b <= 0xDF then
        if |s| >= 2 && IsTail(s[1]) then 2 else 0
      else if b == 0xE0 then
        if |s| >= 3 && 0xA0 <= s[1] <= 0xBF && IsTail(s[2]) then 3 else 0
      else if (0xE1 <= b <= 0xEC) || (0xEE <= b <= 0xEF) then
        if |s| >= 3 && IsTail(s[1]) && IsTail(s[2]) then 3 else 0
      else if b == 0xED then
        if |s| >= 3 && 0x80 <= s[1] <= 0x9F && IsTail(s[2]) then 3 else 0
      else if b == 0xF0 then
        if |s| >= 4 && 0x90 <= s[1] <= 0xBF && IsTail(s[2]) && IsTail(s[3]) then 4 else 0
      else if 0xF1 <= b <= 0xF3 then
        if |s| >= 4 && IsTail(s[1]) && IsTail(s[2]) && IsTail(s[3]) then 4 else 0
      else if b == 0xF4 then
        if |s| >= 4 && 0x80 <= s[1] <= 0x8F && IsTail(s[2]) && IsTail(s[3]) then 4 else 0
      else 0
  }

  /** UTF8-octets = *( UTF8-char ) */
  predicate ValidUtf8(s: seq<u8>)
    decreases |s|
  {
    s == [] || (LeadWidth(s) > 0 && ValidUtf8(s[LeadWidth(s)..]))
  }

  /** Rust's `&str`: bytes that decode as text. */
  type Str = s: seq<u8> | ValidUtf8(s)

  /** The leading character is determined by its own bytes: appending cannot change it. */
  lemma LeadWidthAppend(s: seq<u8>, t: seq<u8>)
    requires LeadWidth(s) > 0
    ensures LeadWidth(s + t) == LeadWidth(s)
  {
    var w := LeadWidth(s);
    assert forall j :: 0 <= j < w ==> (s + t)[j] == s[j];
  }

  /** Text followed by text is text: the concatenation `String::append` builds stays decodable. */
  lemma {:induction false} ValidUtf8Concat(s: seq<u8>, t: seq<u8>)
    requires ValidUtf8(s) && ValidUtf8(t)
    ensures ValidUtf8(s + t)
    decreases |s|
  {
    if s == [] {
      assert s + t == t;
    } else {
      var w := LeadWidth(s);
      LeadWidthAppend(s, t);
      assert (s + t)[w..] == s[w..] + t;
      ValidUtf8Concat(s[w..], t);
    }
  }
}
