/**
 * Well-formed UTF-8, as Rust's `str` guarantees it and `read_to_string` checks it:
 * the well-formed byte sequences of Table 3-7 in section 3.9 of the Unicode Standard
 * (no overlong forms, no surrogates, nothing above U+10FFFF).
 */
module Utf8 {
  import opened Ints

  predicate IsContinuation(b: u8) {
    0x80 <= b <= 0xBF
  }

  /** Length of the well-formed sequence for one scalar value that starts `s`, or 0 if `s` does not start with one. */
  function FirstScalarLength(s: seq<u8>): (n: nat)
    ensures n <= |s| && n <= 4
  {
    if |s| == 0 then 0
    else if s[0] <= 0x7F then 1
    else if 0xC2 <= s[0] <= 0xDF then
      if |s| >= 2 && IsContinuation(s[1]) then 2 else 0
    else if s[0] == 0xE0 then
      if |s| >= 3 && 0xA0 <= s[1] <= 0xBF && IsContinuation(s[2]) then 3 else 0
    else if 0xE1 <= s[0] <= 0xEC || 0xEE <= s[0] <= 0xEF then
      if |s| >= 3 && IsContinuation(s[1]) && IsContinuation(s[2]) then 3 else 0
    else if s[0] == 0xED then
      if |s| >= 3 && 0x80 <= s[1] <= 0x9F && IsContinuation(s[2]) then 3 else 0
    else if s[0] == 0xF0 then
      if |s| >= 4 && 0x90 <= s[1] <= 0xBF && IsContinuation(s[2]) && IsContinuation(s[3]) then 4 else 0
    else if 0xF1 <= s[0] <= 0xF3 then
      if |s| >= 4 && IsContinuation(s[1]) && IsContinuation(s[2]) && IsContinuation(s[3]) then 4 else 0
    else if s[0] == 0xF4 then
      if |s| >= 4 && 0x80 <= s[1] <= 0x8F && IsContinuation(s[2]) && IsContinuation(s[3]) then 4 else 0
    else 0
  }

  /** `s` is a concatenation of well-formed scalar-value sequences. */
  predicate IsUtf8(s: seq<u8>)
    decreases |s|
  {
    s == [] || (FirstScalarLength(s) > 0 && IsUtf8(s[FirstScalarLength(s)..]))
  }

  /** The bytes of a Rust `String` / `&str`. */
  type Utf8String = s: seq<u8> | IsUtf8(s) witness []

  /** Only the bytes of the first scalar value decide its length: appending bytes does not change it. */
  lemma FirstScalarUnaffectedBySuffix(s: seq<u8>, t: seq<u8>)
    requires FirstScalarLength(s) > 0
    ensures FirstScalarLength(s + t) == FirstScalarLength(s)
  {
    var n := FirstScalarLength(s);
    assert forall k :: 0 <= k < n ==> (s + t)[k] == s[k];
  }

  /** One step of `IsUtf8` read backwards: a first scalar value followed by well-formed text. */
  lemma PrependScalar(a: seq<u8>, b: seq<u8>)
    requires FirstScalarLength(a) > 0 && IsUtf8(a[FirstScalarLength(a)..] + b)
    ensures IsUtf8(a + b)
  {
    var n := FirstScalarLength(a);
    FirstScalarUnaffectedBySuffix(a, b);
    assert (a + b)[n..] == a[n..] + b;
  }

  /** Well-formed text stays well-formed when more well-formed text is appended. */
  lemma {:induction false} Concat(a: seq<u8>, b: seq<u8>)
    requires IsUtf8(a) && IsUtf8(b)
    ensures IsUtf8(a + b)
  {
    if a == [] {
      assert a + b == b;
    } else {
      Concat(a[FirstScalarLength(a)..], b);
      PrependScalar(a, b);
    }
  }

  /** Every ASCII byte string is well-formed UTF-8. */
  lemma {:induction false} AsciiIsUtf8(s: seq<u8>)
    requires forall k :: 0 <= k < |s| ==> s[k] <= 0x7F
    ensures IsUtf8(s)
  {
    if s != [] {
      assert FirstScalarLength(s) == 1;
      AsciiIsUtf8(s[1..]);
    }
  }
}
