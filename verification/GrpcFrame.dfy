/** gRPC length-prefixed messages (codec.rs): one flag byte, four big-endian length bytes, the payload. */
module GrpcFrame {
  import opened Wrappers
  import opened WireBasics

  datatype Compression = Identity | Gzip | Other(name: string)

  /** The gzip codec, which this model takes as given: `inflate` has no result on corrupt data. */
  datatype Codec = Codec(deflate: bytes -> bytes, inflate: bytes -> Option<bytes>)

  datatype FrameError =
    | TooShort | TooLarge(declared: nat) | LengthMismatch | BadFlag(flag: byte) | Unsupported | Corrupt | Expands

  type Frame = Result<bytes, FrameError>

  const UNCOMPRESSED: byte := 0
  const COMPRESSED: byte := 1

  /** `to_be_bytes` of a length truncated to `u32`. */
  function BigEndian(n: nat): (b: bytes)
    ensures |b| == 4
  {
    var v := n % U32;
    [v / 0x100_0000, v / 0x1_0000 % 256, v / 256 % 256, v % 256]
  }

  function FromBigEndian(b: bytes): (n: nat)
    requires |b| == 4
    ensures n < U32
  {
    var (b0: int, b1: int, b2: int, b3: int) := (b[0], b[1], b[2], b[3]);
    b0 * 0x100_0000 + b1 * 0x1_0000 + b2 * 256 + b3
  }

  lemma BigEndianRoundTrip(n: nat)
    ensures FromBigEndian(BigEndian(n)) == n % U32
  {
    var v := n % U32;
    assert v == v / 256 * 256 + v % 256;
    assert v / 256 == v / 256 / 256 * 256 + v / 256 % 256;
    assert v / 256 / 256 == v / 0x1_0000;
    assert v / 0x1_0000 == v / 0x1_0000 / 256 * 256 + v / 0x1_0000 % 256;
    assert v / 0x1_0000 / 256 == v / 0x100_0000;
  }

  function Declared(data: bytes): nat
    requires |data| >= 5
  {
    FromBigEndian(data[1..5])
  }

  function Compress(z: Codec, c: Compression, data: bytes): Frame {
    match c
    case Identity => Success(data)
    case Gzip => Success(z.deflate(data))
    case Other(_) => Failure(Unsupported)
  }

  function Decompress(z: Codec, c: Compression, data: bytes, max: nat): Frame {
    match c
    case Identity => Success(data)
    case Gzip =>
      var out := z.inflate(data);
      if out.None? then Failure(Corrupt) else if |out.value| > max then Failure(Expands) else Success(out.value)
    case Other(_) => Failure(Unsupported)
  }

  /** The frame of a payload whatever its length. */
  function Packed(flag: byte, payload: bytes): bytes {
    [flag] + BigEndian(|payload|) + payload
  }

  function Encoded(z: Codec, message: bytes, c: Compression, max: nat): Frame {
    if |message| > max then Failure(TooLarge(|message|))
    else
      var payload := Compress(z, c, message);
      if payload.Failure? then payload
      else Success(Packed(if c.Identity? then UNCOMPRESSED else COMPRESSED, payload.value))
  }

  /** `decode_message` */
  function DecodeMessage(z: Codec, frame: bytes, c: Compression, max: nat): Frame {
    if |frame| < 5 then Failure(TooShort)
    else if Declared(frame) > max then Failure(TooLarge(Declared(frame)))
    else if |frame| - 5 != Declared(frame) then Failure(LengthMismatch)
    else if frame[0] == UNCOMPRESSED then Success(frame[5..])
    else if frame[0] == COMPRESSED then
      var data := Decompress(z, c, frame[5..], max);
      if data.Success? && |data.value| > max then Failure(TooLarge(|data.value|)) else data
    else Failure(BadFlag(frame[0]))
  }

  /** The payload an accepted message is sent as. */
  function Payload(z: Codec, message: bytes, c: Compression): bytes {
    if c.Gzip? then z.deflate(message) else message
  }

  ghost predicate Inverse(z: Codec, message: bytes, c: Compression) {
    c.Gzip? ==> z.inflate(z.deflate(message)) == Some(message)
  }

  lemma PackedParts(flag: byte, payload: bytes)
    ensures var f := Packed(flag, payload);
            |f| == 5 + |payload| && f[0] == flag && f[5..] == payload && Declared(f) == |payload| % U32
  {
    var f := Packed(flag, payload);
    assert f[1..5] == BigEndian(|payload|);
    BigEndianRoundTrip(|payload|);
  }

  /** The receiver's limit has room for the payload and for the message. */
  predicate Receivable(z: Codec, message: bytes, c: Compression, max: nat) {
    |Payload(z, message, c)| <= max && |message| <= max
  }

  /**
   * A message sent under one limit and received under another arrives unchanged if and only if its payload fits the
   * 32-bit length field, and payload and message the receiver's limit; a compressed payload may exceed a limit although
   * the message itself does not.
   */
  lemma FrameRoundTrip(z: Codec, message: bytes, c: Compression, sendMax: nat, max: nat)
    requires Inverse(z, message, c) && Encoded(z, message, c, sendMax).Success?
    ensures DecodeMessage(z, Encoded(z, message, c, sendMax).value, c, max) == Success(message)
            <==> |Payload(z, message, c)| < U32 && Receivable(z, message, c, max)
  {
    hide Packed, Declared;
    var payload := Payload(z, message, c);
    PackedParts(if c.Identity? then UNCOMPRESSED else COMPRESSED, payload);
    if |payload| >= U32 { assert |payload| % U32 != |payload|; }
  }

  // ----------------------------------------------------------------- frames byte by byte

  /** A frame as it stands on the wire: a flag, the four bytes of the length, highest first, and the payload. */
  function OnWire(flag: byte, payload: bytes): bytes {
    var n := |payload|;
    [flag, n / 0x100_0000 % 256, n / 0x1_0000 % 256, n / 256 % 256, n % 256] + payload
  }

  /** Dividing away some low bits leaves the high bits of a multiple of 2^32 where they were. */
  lemma HighBits(q: nat, v: nat, low: nat, high: nat)
    requires low > 0 && low * high == 0x1_0000_0000
    ensures (q * 0x1_0000_0000 + v) / low == q * high + v / low
  {
    var d := v / low;
    assert v == d * low + v % low;
    assert q * (low * high) == (q * high) * low;
    assert q * 0x1_0000_0000 + v == (q * high + d) * low + v % low;
    Quotient(q * 0x1_0000_0000 + v, low, q * high + d, v % low);
  }

  lemma Quotient(n: nat, b: nat, q: nat, r: nat)
    requires r < b && n == q * b + r
    ensures n / b == q
  {
    var (d, m) := (n / b, n % b);
    assert n == d * b + m;
    assert (q - d) * b == m - r;
    Multiples(q - d, b);
  }

  lemma Multiples(k: int, b: int)
    requires b > 0
    ensures k >= 1 ==> k * b >= b
    ensures k <= -1 ==> k * b <= -b
  {
    if k >= 1 { assert k * b >= 1 * b; }
    if k <= -1 { assert k * b <= -1 * b; }
  }

  lemma LowByte(x: nat, q: nat, a: nat)
    requires x == 256 * q + a
    ensures x % 256 == a % 256
  {
  }

  lemma DigitsBelow32(n: nat)
    ensures var v := n % 0x1_0000_0000;
            && v / 0x100_0000 == n / 0x100_0000 % 256 && v / 0x1_0000 % 256 == n / 0x1_0000 % 256
            && v / 256 % 256 == n / 256 % 256 && v % 256 == n % 256
  {
    var (q, v) := (n / 0x1_0000_0000, n % 0x1_0000_0000);
    assert n == q * 0x1_0000_0000 + v;
    Digit(n, q, v, 0x100_0000, 0x1);
    Digit(n, q, v, 0x1_0000, 0x100);
    Digit(n, q, v, 0x100, 0x1_0000);
    LowByte(n, q * 0x100_0000, v);
  }

  /** The digit above `low` is that of the number modulo 2^32. */
  lemma Digit(n: nat, q: nat, v: nat, low: nat, high: nat)
    requires n == q * 0x1_0000_0000 + v && low > 0 && low * high == 0x100_0000
    ensures n / low % 256 == v / low % 256
  {
    assert low * (256 * high) == 256 * (low * high);
    HighBits(q, v, low, 256 * high);
    assert q * (256 * high) == 256 * (q * high);
    LowByte(n / low, q * high, v / low);
  }

  lemma OnWirePacked(flag: byte, payload: bytes)
    ensures OnWire(flag, payload) == Packed(flag, payload)
  {
    DigitsBelow32(|payload|);
    var v := |payload| % U32;
    var lengths: bytes := [v / 0x100_0000, v / 0x1_0000 % 256, v / 256 % 256, v % 256];
    assert BigEndian(|payload|) == lengths;
    assert [flag] + lengths == [flag, v / 0x100_0000, v / 0x1_0000 % 256, v / 256 % 256, v % 256];
  }

  lemma OnWireUnfolds(flag: byte, payload: bytes)
    requires |payload| < 0x1_0000_0000
    ensures var n := |payload|;
            OnWire(flag, payload) == [flag, n / 0x100_0000, n / 0x1_0000 % 256, n / 256 % 256, n % 256] + payload
  {
    assert |payload| / 0x100_0000 % 256 == |payload| / 0x100_0000;
  }

  /**
   * What a whole frame from the wire means, whoever sent it: under the limit its payload with flag 0, the
   * decompressed payload with flag 1, and nothing with any other flag.
   */
  lemma FrameMeaning(z: Codec, c: Compression, max: nat, flag: byte, payload: bytes)
    requires |payload| < 0x1_0000_0000
    ensures var n := |payload|;
            var frame := [flag, n / 0x100_0000, n / 0x1_0000 % 256, n / 256 % 256, n % 256] + payload;
            DecodeMessage(z, frame, c, max) ==
              if n > max then Failure(TooLarge(n))
              else if flag == 0 then Success(payload)
              else if flag != 1 then Failure(BadFlag(flag))
              else
                match c
                case Identity => Success(payload)
                case Gzip =>
                  (match z.inflate(payload)
                   case None => Failure(Corrupt)
                   case Some(data) => if |data| > max then Failure(Expands) else Success(data))
                case Other(_) => Failure(Unsupported)
  {
    hide OnWire, Packed, Declared;
    OnWireUnfolds(flag, payload);
    OnWirePacked(flag, payload);
    PackedParts(flag, payload);
  }

  /** Every other text is refused: too short for a header, or a length over the limit or not that of the payload. */
  lemma FrameRefused(z: Codec, c: Compression, max: nat, frame: bytes)
    ensures |frame| < 5 ==> DecodeMessage(z, frame, c, max) == Failure(TooShort)
    ensures |frame| >= 5 ==>
              var n := frame[1] as int * 0x100_0000 + frame[2] as int * 0x1_0000 + frame[3] as int * 0x100 + frame[4];
              && (n > max ==> DecodeMessage(z, frame, c, max) == Failure(TooLarge(n)))
              && (n <= max && |frame| != 5 + n ==> DecodeMessage(z, frame, c, max) == Failure(LengthMismatch))
  {
    if |frame| >= 5 { assert frame[1..5] == [frame[1], frame[2], frame[3], frame[4]]; }
  }

  /** Sending fails for a message over the limit or a codec this build does not have, and for nothing else. */
  lemma EncodeFails(z: Codec, message: bytes, c: Compression, max: nat)
    ensures Encoded(z, message, c, max).Failure? <==> |message| > max || c.Other?
  {
  }

  /**
   * `encode_message`: it fails for no other reason than the size or the codec; what it returns is the flag, the length
   * and the payload, and decodes to the message exactly when its payload fits the length field and the limit of whoever
   * receives it has room.
   */
  method EncodeMessage(z: Codec, message: bytes, c: Compression, max: nat) returns (r: Frame)
    ensures r.Failure? <==> |message| > max || c.Other?
    ensures |message| > max ==> r == Failure(TooLarge(|message|))
    ensures |message| <= max && c.Other? ==> r == Failure(Unsupported)
    ensures r.Success? ==>
              var payload := if c.Gzip? then z.deflate(message) else message;
              var n := |payload|;
              r.value == [if c.Identity? then 0 else 1, n / 0x100_0000 % 256, n / 0x1_0000 % 256, n / 256 % 256, n % 256]
                         + payload
    ensures r.Success? && Inverse(z, message, c) ==>
            forall limit: nat :: DecodeMessage(z, r.value, c, limit) == Success(message)
                                 <==> |Payload(z, message, c)| < U32 && Receivable(z, message, c, limit)
    ensures r == Encoded(z, message, c, max)
  {
    EncodeFails(z, message, c, max);
    if |message| > max { return Failure(TooLarge(|message|)); }
    var payload := Compress(z, c, message);
    if payload.Failure? { return payload; }
    var out := [if c.Identity? then UNCOMPRESSED else COMPRESSED];
    out := out + BigEndian(|payload.value|);
    out := out + payload.value;
    r := Success(out);
    OnWirePacked(if c.Identity? then 0 else 1, payload.value);
    if Inverse(z, message, c) {
      forall limit: nat
        ensures DecodeMessage(z, r.value, c, limit) == Success(message)
                <==> |Payload(z, message, c)| < U32 && Receivable(z, message, c, limit)
      {
        FrameRoundTrip(z, message, c, max, limit);
      }
    }
  }

  /** Whatever is accepted is within the limit, decompressed or not, and its frame has the declared length. */
  lemma DecodedWithinLimit(z: Codec, frame: bytes, c: Compression, max: nat)
    requires DecodeMessage(z, frame, c, max).Success?
    ensures |DecodeMessage(z, frame, c, max).value| <= max && |frame| == 5 + Declared(frame)
  {
  }
}
