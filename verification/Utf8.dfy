/** UTF-8 well-formedness (Unicode 15, Table 3-7), as `std::str::from_utf8` decides it. */
module Utf8 {
  import opened Wrappers
  import opened WireBasics

  predicate Trail(b: byte) { 0x80 <= b <= 0xBF }

  /** Length of the well-formed sequence at the front of `s`, or 0 when there is none. */
  function FrontLength(s: bytes): (n: nat)
    ensures n <= |s|
  {
    if |s| >= 1 && s[0] < 0x80 then 1
    else if |s| >= 2 && 0xC2 <= s[0] <= 0xDF && Trail(s[1]) then 2
    else if |s| >= 3 && Trail(s[2]) && ThreeByteLead(s[0], s[1]) then 3
    else if |s| >= 4 && Trail(s[2]) && Trail(s[3]) && FourByteLead(s[0], s[1]) then 4
    else 0
  }

  predicate ThreeByteLead(a: byte, b: byte) {
    || (a == 0xE0 && 0xA0 <= b <= 0xBF)
    || (0xE1 <= a <= 0xEC && Trail(b))
    || (a == 0xED && 0x80 <= b <= 0x9F)
    || (0xEE <= a <= 0xEF && Trail(b))
  }

  predicate FourByteLead(a: byte, b: byte) {
    || (a == 0xF0 && 0x90 <= b <= 0xBF)
    || (0xF1 <= a <= 0xF3 && Trail(b))
    || (a == 0xF4 && 0x80 <= b <= 0x8F)
  }

  /** `valid_up_to`: the length of the longest well-formed prefix. */
  function ValidUpTo(s: bytes): (n: nat)
    ensures n <= |s|
  {
    var k := FrontLength(s);
    if k == 0 then 0 else k + ValidUpTo(s[k..])
  }

  predicate IsUtf8(s: bytes) {
    ValidUpTo(s) == |s|
  }

  /** A Rust `String`. */
  type Str = s: bytes | IsUtf8(s) witness []

  /** `unwrap_or_default` of an optional string. */
  function Text(o: Option<Str>): Str {
    if o.Some? then o.value else []
  }
}
