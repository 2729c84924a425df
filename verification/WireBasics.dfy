/** Machine integers, wire errors and decoder limits (error.rs, limits.rs). */
module WireBasics {
  import opened Wrappers

  const U32: int := 0x1_0000_0000
  const U64: int := 0x1_0000_0000_0000_0000
  const HALF32: int := 0x8000_0000
  const HALF64: int := 0x8000_0000_0000_0000

  type byte = x: int | 0 <= x < 256
  type u32 = x: int | 0 <= x < U32
  type u64 = x: int | 0 <= x < U64
  type i32 = x: int | -0x8000_0000 <= x < 0x8000_0000
  type bytes = seq<byte>

  datatype LimitKind = MaxBytes | MaxFields | MaxLengthDelimited | MaxStringLen | MaxUnknownBytes

  /** `Overflow` stands for the arithmetic trap of a build with overflow checks: `pos + len` in `usize`. */
  datatype Error =
    | UnexpectedEof
    | VarintTooLong
    | InvalidTag(tag: u32)
    | LengthLimitExceeded(len: nat)
    | Utf8Error(offset: nat)
    | UnterminatedGroup(group: u32)
    | DepthLimitExceeded
    | LimitExceeded(which: LimitKind)
    | UnexpectedWireType(found: nat)
    | MissingMapKey
    | RaggedPackedLength
    | TrailingBytes
    | Overflow

  datatype DecoderLimits = DecoderLimits(
    maxBytes: Option<nat>,
    maxDepth: nat,
    maxFields: Option<nat>,
    maxLengthDelimited: Option<nat>,
    maxStringLen: Option<nat>,
    maxUnknownBytes: Option<nat>)

  const DEFAULT_LIMITS := DecoderLimits(
    Some(64 * 1024 * 1024), 100, Some(1_000_000), Some(16 * 1024 * 1024), Some(16 * 1024 * 1024),
    Some(16 * 1024 * 1024))

  /** The test every `check_*` of limits.rs performs. */
  predicate Within(cap: Option<nat>, n: int) {
    cap.None? || n <= cap.value
  }

  /** `as u64`: sign extension. */
  function Unsigned(v: int): (u: u64)
    requires -HALF64 <= v < U64
  {
    if v < 0 then v + U64 else v
  }

  /** `as i32` of an unsigned value: its low 32 bits, read as signed. */
  function Signed32(u: u64): i32 {
    var low := u % U32;
    if low >= HALF32 then low - U32 else low
  }

  /** `as i64` of an unsigned value. */
  function Signed64(u: u64): int {
    if u >= HALF64 then u - U64 else u
  }

  function Max(a: nat, b: nat): nat { if a < b then b else a }

  lemma Assoc<T>(a: seq<T>, b: seq<T>, c: seq<T>)
    ensures (a + b) + c == a + (b + c)
  {
  }

  /** Little-endian digits, `n` of them. */
  function ToLittleEndian(v: nat, n: nat): (bs: bytes)
    ensures |bs| == n
  {
    if n == 0 then [] else [v % 256] + ToLittleEndian(v / 256, n - 1)
  }

  function FromLittleEndian(bs: bytes): nat {
    if bs == [] then 0 else bs[0] + 256 * FromLittleEndian(bs[1..])
  }

  function Pow256(n: nat): nat {
    if n == 0 then 1 else 256 * Pow256(n - 1)
  }

  lemma {:induction false} LittleEndianRoundTrip(v: nat, n: nat)
    requires v < Pow256(n)
    ensures FromLittleEndian(ToLittleEndian(v, n)) == v
  {
    if n != 0 {
      LittleEndianRoundTrip(v / 256, n - 1);
    }
  }

  lemma {:induction false} LittleEndianBound(bs: bytes)
    ensures FromLittleEndian(bs) < Pow256(|bs|)
  {
    if bs != [] {
      LittleEndianBound(bs[1..]);
    }
  }

  lemma Pow256Values()
    ensures Pow256(4) == U32 && Pow256(8) == U64
  {
    assert Pow256(4) == 256 * (256 * (256 * 256));
    assert Pow256(8) == 256 * (256 * (256 * (256 * Pow256(4))));
  }

  /** The number of four bytes of which the lowest comes first. */
  function LowFirst(b0: byte, b1: byte, b2: byte, b3: byte): u32 {
    b0 + 0x100 * b1 + 0x1_0000 * b2 + 0x100_0000 * b3
  }

  lemma FourBytes(b0: byte, b1: byte, b2: byte, b3: byte)
    ensures var v := LowFirst(b0, b1, b2, b3);
            FromLittleEndian([b0, b1, b2, b3]) == v && ToLittleEndian(v, 4) == [b0, b1, b2, b3]
  {
    hide ToLittleEndian;
    var bs: bytes := [b0, b1, b2, b3];
    assert bs[1..] == [b1, b2, b3] && bs[1..][1..] == [b2, b3] && bs[1..][1..][1..] == [b3];
    assert FromLittleEndian([b3]) == b3;
    assert FromLittleEndian([b2, b3]) == b2 + 256 * FromLittleEndian([b3]);
    assert FromLittleEndian([b1, b2, b3]) == b1 + 256 * FromLittleEndian([b2, b3]);
    DigitsBack(bs);
  }

  lemma EightBytes(low: bytes, high: bytes)
    requires |low| == 4 && |high| == 4
    ensures FromLittleEndian(low + high) == FromLittleEndian(low) + 0x1_0000_0000 * FromLittleEndian(high)
    ensures ToLittleEndian(FromLittleEndian(low + high), 8) == low + high
  {
    LowThenHigh(low, high);
    Pow256Values();
    DigitsBack(low + high);
  }

  lemma {:induction false} LowThenHigh(low: bytes, high: bytes)
    ensures FromLittleEndian(low + high) == FromLittleEndian(low) + Pow256(|low|) * FromLittleEndian(high)
  {
    if |low| == 0 {
      assert low + high == high;
    } else {
      LowThenHigh(low[1..], high);
      FirstDigit(low, high);
      AddDigit(low[0], FromLittleEndian(low[1..]), Pow256(|low| - 1), FromLittleEndian(high));
    }
  }

  lemma FirstDigit(low: bytes, high: bytes)
    requires |low| > 0
    ensures FromLittleEndian(low + high) == low[0] + 256 * FromLittleEndian(low[1..] + high)
  {
    assert (low + high)[1..] == low[1..] + high;
  }

  lemma AddDigit(b: nat, l: nat, p: nat, h: nat)
    ensures b + 256 * (l + p * h) == (b + 256 * l) + (256 * p) * h
  {
    assert 256 * (p * h) == (256 * p) * h;
  }

  lemma {:induction false} DigitsBack(bs: bytes)
    ensures ToLittleEndian(FromLittleEndian(bs), |bs|) == bs
  {
    if |bs| > 0 {
      DigitsBack(bs[1..]);
      TakeDigit(bs[0], FromLittleEndian(bs[1..]), |bs| - 1);
      assert bs == [bs[0]] + bs[1..];
    }
  }

  lemma TakeDigit(b: byte, v: nat, n: nat)
    ensures ToLittleEndian(b + 256 * v, n + 1) == [b] + ToLittleEndian(v, n)
  {
    LowDigit(b, v);
  }

  lemma LowDigit(b: byte, v: nat)
    ensures (b + 256 * v) % 256 == b && (b + 256 * v) / 256 == v
  {
  }
}
