/** Well-formed UTF-8 is exactly what a list of Unicode scalar values is written as (RFC 3629, section 3). */
module Utf8Characters {
  import opened WireBasics
  import opened Utf8

  predicate Scalar(v: nat) {
    v < 0xD800 || 0xE000 <= v <= 0x10_FFFF
  }

  /** The bytes of one character: six bits in each byte behind the first. */
  function Written(v: nat): (s: bytes)
    requires Scalar(v)
    ensures |s| > 0
  {
    if v < 0x80 then [v]
    else if v < 0x800 then [0xC0 + v / 64, 0x80 + v % 64]
    else if v < 0x1_0000 then [0xE0 + v / 4096, 0x80 + v / 64 % 64, 0x80 + v % 64]
    else [0xF0 + v / 262144, 0x80 + v / 4096 % 64, 0x80 + v / 64 % 64, 0x80 + v % 64]
  }

  ghost predicate AllScalar(vs: seq<nat>) {
    forall i :: 0 <= i < |vs| ==> Scalar(vs[i])
  }

  function WrittenAll(vs: seq<nat>): bytes
    requires AllScalar(vs)
  {
    if |vs| == 0 then [] else Written(vs[0]) + WrittenAll(vs[1..])
  }

  lemma Written3(v: nat)
    requires Scalar(v) && 0x800 <= v < 0x1_0000
    ensures ThreeByteLead(Written(v)[0], Written(v)[1]) && Trail(Written(v)[2])
  {
    var (a, b, c) := (v / 4096, v / 64 % 64, v % 64);
    assert v / 64 / 64 == a;
    assert v == a * 4096 + b * 64 + c;
  }

  lemma Written4(v: nat)
    requires Scalar(v) && v >= 0x1_0000
    ensures FourByteLead(Written(v)[0], Written(v)[1]) && Trail(Written(v)[2]) && Trail(Written(v)[3])
    ensures !ThreeByteLead(Written(v)[0], Written(v)[1])
  {
    var (a, b, c, d) := (v / 262144, v / 4096 % 64, v / 64 % 64, v % 64);
    assert v / 64 / 64 == v / 4096 && v / 4096 / 64 == a;
    assert v == a * 262144 + b * 4096 + c * 64 + d;
  }

  /** A character in front is found whole. */
  lemma CharacterFound(v: nat, rest: bytes)
    requires Scalar(v)
    ensures FrontLength(Written(v) + rest) == |Written(v)|
  {
    hide ThreeByteLead, FourByteLead;
    var s := Written(v) + rest;
    assert forall i :: 0 <= i < |Written(v)| ==> s[i] == Written(v)[i];
    if 0x80 <= v < 0x800 {
      assert 2 <= v / 64 < 32;
    } else if 0x800 <= v < 0x1_0000 {
      Written3(v);
    } else if v >= 0x1_0000 {
      Written4(v);
      assert 0 <= v / 262144 <= 4;
    }
  }

  /** And what is found in front is a character. */
  lemma FoundCharacter(s: bytes) returns (v: nat)
    requires FrontLength(s) > 0
    ensures Scalar(v) && s[..FrontLength(s)] == Written(v)
  {
    var k := FrontLength(s);
    if k == 1 {
      v := s[0];
    } else if k == 2 {
      v := Found2(s[0], s[1]);
    } else if k == 3 {
      v := Found3(s[0], s[1], s[2]);
    } else {
      v := Found4(s[0], s[1], s[2], s[3]);
    }
  }

  lemma Found2(a: byte, b: byte) returns (v: nat)
    requires 0xC2 <= a <= 0xDF && Trail(b)
    ensures Scalar(v) && Written(v) == [a, b]
  {
    v := (a - 0xC0) * 64 + (b - 0x80);
    assert v / 64 == a - 0xC0;
  }

  lemma Found3(a: byte, b: byte, c: byte) returns (v: nat)
    requires ThreeByteLead(a, b) && Trail(c)
    ensures Scalar(v) && Written(v) == [a, b, c]
  {
    v := (a - 0xE0) * 4096 + (b - 0x80) * 64 + (c - 0x80);
    assert v / 64 == (a - 0xE0) * 64 + (b - 0x80);
    assert v / 4096 == a - 0xE0;
  }

  lemma Found4(a: byte, b: byte, c: byte, d: byte) returns (v: nat)
    requires FourByteLead(a, b) && Trail(c) && Trail(d)
    ensures Scalar(v) && Written(v) == [a, b, c, d]
  {
    v := (a - 0xF0) * 262144 + (b - 0x80) * 4096 + (c - 0x80) * 64 + (d - 0x80);
    assert v / 64 == (a - 0xF0) * 4096 + (b - 0x80) * 64 + (c - 0x80);
    assert v / 4096 == (a - 0xF0) * 64 + (b - 0x80);
    assert v / 262144 == a - 0xF0;
  }

  lemma {:induction false} TextIsUtf8(vs: seq<nat>)
    requires AllScalar(vs)
    ensures IsUtf8(WrittenAll(vs))
  {
    hide Written, FrontLength;
    if |vs| > 0 {
      TextIsUtf8(vs[1..]);
      CharacterFound(vs[0], WrittenAll(vs[1..]));
      var s := WrittenAll(vs);
      assert s[|Written(vs[0])|..] == WrittenAll(vs[1..]);
    }
  }

  lemma {:induction false} Utf8IsText(s: bytes) returns (vs: seq<nat>)
    requires IsUtf8(s)
    ensures AllScalar(vs) && s == WrittenAll(vs)
  {
    hide Written, FrontLength, Scalar;
    vs := [];
    if |s| > 0 {
      var k := FrontLength(s);
      var v := FoundCharacter(s);
      var rest := Utf8IsText(s[k..]);
      vs := [v] + rest;
      assert vs[1..] == rest;
      assert s == s[..k] + s[k..];
    }
  }

  /** A byte string is accepted as text if and only if some list of characters is written that way. */
  lemma Utf8Language(s: bytes)
    ensures IsUtf8(s) <==> exists vs: seq<nat> :: AllScalar(vs) && s == WrittenAll(vs)
  {
    hide IsUtf8;
    if IsUtf8(s) { var vs := Utf8IsText(s); }
    if vs: seq<nat> :| AllScalar(vs) && s == WrittenAll(vs) { TextIsUtf8(vs); }
  }

  lemma FrontStays(s: bytes, k: nat)
    requires 0 < FrontLength(s) <= k <= |s|
    ensures FrontLength(s[..k]) == FrontLength(s)
  {
  }

  lemma FrontInPrefix(s: bytes, k: nat)
    requires k <= |s| && FrontLength(s[..k]) > 0
    ensures FrontLength(s) == FrontLength(s[..k])
  {
  }

  /** The offset reported with an error is where the longest well-formed prefix ends. */
  lemma {:induction false} ValidUpToMeaning(s: bytes, k: nat)
    requires k <= |s|
    ensures IsUtf8(s[..ValidUpTo(s)])
    ensures IsUtf8(s[..k]) ==> k <= ValidUpTo(s)
    decreases |s|
  {
    hide FrontLength;
    var n := FrontLength(s);
    if n > 0 {
      var end := ValidUpTo(s);
      ValidUpToMeaning(s[n..], if k >= n then k - n else 0);
      FrontStays(s, end);
      assert s[..end][n..] == s[n..][..end - n];
      if IsUtf8(s[..k]) && k > 0 {
        FrontInPrefix(s, k);
        assert s[..k][n..] == s[n..][..k - n];
      }
    } else if IsUtf8(s[..k]) && k > 0 {
      FrontInPrefix(s, k);
    }
  }
}
