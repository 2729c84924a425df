/** Base-128 varints (varint.rs; Protocol Buffers Encoding, "Base 128 Varints"). */
module Varint {
  import opened Wrappers
  import opened WireBasics

  const MAX_VARINT_LEN: nat := 10

  // ------------------------------------------------------------------ meaning

  function Pow128(n: nat): (p: nat)
    ensures p >= 1
  {
    if n == 0 then 1 else 128 * Pow128(n - 1)
  }

  /** All bytes but the last carry the continuation bit. */
  predicate IsVarint(s: bytes) {
    && |s| > 0
    && s[|s| - 1] < 128
    && forall i :: 0 <= i < |s| - 1 ==> s[i] >= 128
  }

  /** The base-128 sum of the payload bits, least significant group first. */
  function Value(s: bytes): nat {
    if s == [] then 0 else s[0] % 128 + 128 * Value(s[1..])
  }

  // ------------------------------------------------------------ encoder, decoder

  /** The bytes `encode_varint` appends. */
  function Encode(v: nat): (s: bytes)
    ensures IsVarint(s)
    ensures Value(s) == v
  {
    if v < 128 then [v] else
      var rest := Encode(v / 128);
      var s := [v % 128 + 128] + rest;
      assert s[1..] == rest;
      s
  }

  /** `decode_varint` after `k` bytes, with `acc` gathered so far; `rest` starts at the next byte. */
  function DecodeFrom(rest: bytes, k: nat, acc: nat): (r: Result<(u64, nat), Error>)
    ensures r.Success? ==> k < r.value.1 <= k + |rest|
    decreases |rest|
  {
    if rest == [] then Failure(UnexpectedEof)
    else if k == MAX_VARINT_LEN && rest[0] % 128 > 1 then Failure(VarintTooLong)
    else if 7 * k >= 64 then Failure(VarintTooLong)
    else
      var acc' := (acc + rest[0] % 128 * Pow128(k)) % U64;
      if rest[0] < 128 then Success((acc', k + 1))
      else DecodeFrom(rest[1..], k + 1, acc')
  }

  function Decode(rest: bytes): (r: Result<(u64, nat), Error>)
    ensures r.Success? ==> 0 < r.value.1 <= |rest|
  {
    DecodeFrom(rest, 0, 0)
  }

  /** `encode_varint`: the loop that emits seven bits at a time (`value` is a `u64`; the loop does not depend on it). */
  method EncodeVarint(value: nat, buf: bytes) returns (out: bytes)
    ensures out == buf + Encode(value)
  {
    var v := value;
    out := buf;
    while v >= 0x80
      invariant out + Encode(v) == buf + Encode(value)
    {
      EncodeStep(out, v);
      out := out + [v % 128 + 128];
      v := v / 128;
    }
    out := out + [v];
  }

  lemma EncodeStep(out: bytes, v: nat)
    requires v >= 128
    ensures out + Encode(v) == (out + [v % 128 + 128]) + Encode(v / 128)
  {
    var group: bytes := [v % 128 + 128];
    assert Encode(v) == group + Encode(v / 128);
    assert out + (group + Encode(v / 128)) == (out + group) + Encode(v / 128);
  }

  /** `decode_varint`: the loop over `bytes[start..]`. Or-ing disjoint bit groups is written as addition. */
  method DecodeVarint(bs: bytes, start: nat) returns (r: Result<(u64, nat), Error>)
    requires start <= |bs|
    ensures r == Decode(bs[start..])
  {
    var result: u64 := 0;
    var i := start;
    while true
      invariant start <= i <= |bs|
      invariant DecodeFrom(bs[i..], i - start, result) == Decode(bs[start..])
      decreases |bs| - i
    {
      if i >= |bs| { return Failure(UnexpectedEof); }
      var b := bs[i];
      if i - start == MAX_VARINT_LEN && b % 128 > 1 { return Failure(VarintTooLong); }
      if 7 * (i - start) >= 64 { return Failure(VarintTooLong); }
      assert bs[i..][1..] == bs[i + 1..];
      result := (result + b % 128 * Pow128(i - start)) % U64;
      i := i + 1;
      if b < 128 { return Success((result, i - start)); }
    }
  }

  // ------------------------------------------------------------------ theorems

  lemma {:induction false} ValueBound(s: bytes)
    ensures Value(s) < Pow128(|s|)
  {
    if s != [] { ValueBound(s[1..]); }
  }

  lemma ModStep(a: int, b: int, c: int)
    ensures ((a + b) % U64 + c) % U64 == (a + b + c) % U64
  {
    assert U64 * ((a + b) / U64) + (a + b) % U64 == a + b;
    ModMultiple((a + b) % U64 + c, (a + b) / U64);
  }

  lemma ModMultiple(x: int, k: int)
    ensures (x + U64 * k) % U64 == x % U64
  {
  }

  lemma {:induction false} DecodeFromSound(rest: bytes, k: nat, acc: nat)
    requires acc < U64
    ensures var r := DecodeFrom(rest, k, acc);
            r.Success? ==>
              var n := r.value.1 - k;
              && k + n <= MAX_VARINT_LEN
              && IsVarint(rest[..n])
              && r.value.0 == (acc + Pow128(k) * Value(rest[..n])) % U64
    decreases |rest|
  {
    hide IsVarint, Value, Pow128;
    var r := DecodeFrom(rest, k, acc);
    if r.Success? {
      var n := r.value.1 - k;
      if rest[0] < 128 {
        assert rest[..n] == [rest[0]];
        LastByte(acc, k, rest[0]);
      } else {
        DecodeFromSound(rest[1..], k + 1, (acc + rest[0] % 128 * Pow128(k)) % U64);
        assert rest[..n] == [rest[0]] + rest[1..][..n - 1];
        ValueStep(acc, k, rest[0], rest[1..][..n - 1]);
      }
    }
  }

  lemma LastByte(acc: nat, k: nat, b: byte)
    requires b < 128
    ensures IsVarint([b]) && (acc + b % 128 * Pow128(k)) % U64 == (acc + Pow128(k) * Value([b])) % U64
  {
    assert Value([b]) == b % 128 + 128 * Value([]);
    assert b * Pow128(k) == Pow128(k) * b;
  }

  /** One more byte in front, on the accumulator and on the string. */
  lemma ValueStep(acc: nat, k: nat, b: byte, tail: bytes)
    requires b >= 128 && IsVarint(tail)
    ensures var s := [b] + tail;
            && IsVarint(s)
            && ((acc + b % 128 * Pow128(k)) % U64 + Pow128(k + 1) * Value(tail)) % U64
               == (acc + Pow128(k) * Value(s)) % U64
  {
    var (s, d) := ([b] + tail, b % 128);
    assert s[1..] == tail;
    assert d * Pow128(k) == Pow128(k) * d;
    Regroup(Pow128(k), Value(tail));
    Distribute(Pow128(k), d, 128 * Value(tail));
    ModStep(acc, Pow128(k) * d, Pow128(k) * (128 * Value(tail)));
  }

  lemma Regroup(p: nat, v: nat)
    ensures (128 * p) * v == p * (128 * v)
  {
  }

  lemma Distribute(p: nat, a: int, b: int)
    ensures p * (a + b) == p * a + p * b
  {
  }

  lemma {:induction false} DecodeFromComplete(rest: bytes, k: nat, acc: nat, n: nat)
    requires acc < U64
    requires 0 < n <= |rest| && k + n <= MAX_VARINT_LEN && IsVarint(rest[..n])
    ensures DecodeFrom(rest, k, acc).Success? && DecodeFrom(rest, k, acc).value.1 == k + n
    decreases n
  {
    assert rest[..n][0] == rest[0];
    if n > 1 {
      assert rest[1..][..n - 1] == rest[..n][1..];
      DecodeFromComplete(rest[1..], k + 1, (acc + rest[0] % 128 * Pow128(k)) % U64, n - 1);
    } else {
      assert rest[..n] == [rest[0]];
    }
  }

  /** Exactly which strings decode, to what, and how far. */
  lemma DecodeMeaning(rest: bytes, v: u64, n: nat)
    ensures Decode(rest) == Success((v, n)) <==>
            && 0 < n <= |rest| && n <= MAX_VARINT_LEN
            && IsVarint(rest[..n])
            && v == Value(rest[..n]) % U64
  {
    hide DecodeFrom, IsVarint, Value;
    assert Pow128(0) == 1;
    DecodeFromSound(rest, 0, 0);
    if 0 < n <= |rest| && n <= MAX_VARINT_LEN && IsVarint(rest[..n]) {
      DecodeFromComplete(rest, 0, 0, n);
    }
  }

  /** Why a decode fails: no terminator in sight, with ten bytes deciding between the two errors. */
  lemma {:induction false} DecodeFailure(rest: bytes, k: nat, acc: nat)
    requires k <= MAX_VARINT_LEN
    ensures DecodeFrom(rest, k, acc).Failure? <==>
            forall i :: 0 <= i < |rest| && i + k < MAX_VARINT_LEN ==> rest[i] >= 128
    ensures DecodeFrom(rest, k, acc).Failure? ==>
              DecodeFrom(rest, k, acc).error ==
                if |rest| + k <= MAX_VARINT_LEN then UnexpectedEof else VarintTooLong
    decreases |rest|
  {
    if rest != [] && k < MAX_VARINT_LEN {
      DecodeFailure(rest[1..], k + 1, (acc + rest[0] % 128 * Pow128(k)) % U64);
      assert forall i :: 0 <= i < |rest[1..]| ==> rest[1..][i] == rest[i + 1];
      if rest[0] >= 128 && forall i :: 0 <= i < |rest[1..]| && i + k + 1 < MAX_VARINT_LEN ==> rest[1..][i] >= 128 {
        forall i | 0 <= i < |rest| && i + k < MAX_VARINT_LEN
          ensures rest[i] >= 128
        {
          if i > 0 { assert rest[i] == rest[1..][i - 1]; }
        }
      }
    }
  }

  lemma {:induction false} EncodeLength(v: nat, n: nat)
    requires n > 0
    ensures |Encode(v)| <= n <==> v < Pow128(n)
    decreases n
  {
    if n == 1 {
      assert Pow128(1) == 128 * Pow128(0);
    } else if v >= 128 {
      EncodeLength(v / 128, n - 1);
    } else {
      assert Pow128(n) >= 128;
    }
  }

  lemma Pow128Ten()
    ensures Pow128(10) == 64 * U64
  {
    assert Pow128(5) == 128 * (128 * (128 * (128 * 128)));
    assert Pow128(10) == 128 * (128 * (128 * (128 * (128 * Pow128(5)))));
  }

  lemma EncodeFits(v: u64)
    ensures 0 < |Encode(v)| <= MAX_VARINT_LEN
  {
    Pow128Ten();
    EncodeLength(v, 10);
  }

  /** Decoding an encoded value gives it back, whatever follows it. */
  lemma RoundTrip(v: u64, tail: bytes)
    ensures Decode(Encode(v) + tail) == Success((v, |Encode(v)|))
  {
    EncodeFits(v);
    assert (Encode(v) + tail)[..|Encode(v)|] == Encode(v);
    DecodeMeaning(Encode(v) + tail, v, |Encode(v)|);
  }

  lemma {:induction false} EncodeMonotone(a: nat, b: nat)
    requires a <= b
    ensures |Encode(a)| <= |Encode(b)|
    decreases b
  {
    if a >= 128 { EncodeMonotone(a / 128, b / 128); }
  }

  /** No string decoding to `v` is shorter than `Encode(v)`. */
  lemma EncodeShortest(s: bytes, v: u64, n: nat)
    requires Decode(s) == Success((v, n))
    ensures |Encode(v)| <= n
  {
    DecodeMeaning(s, v, n);
    var p := s[..n];
    ValueBound(p);
    EncodeLength(Value(p), n);
    assert Value(p) % U64 <= Value(p);
    EncodeMonotone(v, Value(p));
  }

  /** A successful decode does not look past the bytes it used. */
  lemma {:induction false} DecodeStable(s: bytes, tail: bytes)
    requires Decode(s).Success?
    ensures Decode(s + tail) == Decode(s)
  {
    var (v, n) := Decode(s).value;
    DecodeMeaning(s, v, n);
    assert (s + tail)[..n] == s[..n];
    DecodeMeaning(s + tail, v, n);
  }

  /** `varint_len` of unknown.rs. */
  method VarintLen(v: u64) returns (n: nat)
    ensures n == |Encode(v)|
  {
    var x: int := v;
    n := 1;
    while x >= 0x80
      invariant 0 <= x < U64
      invariant n + |Encode(x)| == 1 + |Encode(v)|
    {
      x := x / 128;
      n := n + 1;
    }
  }
}
