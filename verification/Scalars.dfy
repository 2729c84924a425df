/** The varint-coded scalar types (scalar.rs): sign extension, truncation and zigzag. */
module Scalars {
  import opened Wrappers
  import opened WireBasics
  import opened WireTag
  import S = ReaderSpec
  import R = Reader
  import W = Writer
  import RT = WireRoundTrip
  import Varint

  datatype Scalar = Int32 | Int64 | Uint32 | Uint64 | Bool | Sint32 | Sint64

  /** The values of a type; a boolean is 0 or 1. */
  predicate Fits(k: Scalar, v: int) {
    match k
    case Int32 | Sint32 => -HALF32 <= v < HALF32
    case Int64 | Sint64 => -HALF64 <= v < HALF64
    case Uint32 => 0 <= v < U32
    case Uint64 => 0 <= v < U64
    case Bool => 0 <= v < 2
  }

  /** Zigzag: the shifts and the exclusive or, as arithmetic. */
  function Zigzag(v: int): nat {
    if v < 0 then -2 * v - 1 else 2 * v
  }

  function Unzigzag(u: nat): int {
    if u % 2 == 0 then u / 2 else -(u / 2) - 1
  }

  function ToVarint(k: Scalar, v: int): (u: u64)
    requires Fits(k, v)
  {
    match k
    case Sint32 | Sint64 => Zigzag(v)
    case _ => Unsigned(v)
  }

  function FromVarint(k: Scalar, u: u64): (v: int)
    ensures Fits(k, v)
  {
    match k
    case Int32 => Signed32(u)
    case Int64 => Signed64(u)
    case Uint32 => u % U32
    case Uint64 => u
    case Bool => if u != 0 then 1 else 0
    case Sint32 => Unzigzag(u % U32)
    case Sint64 => Unzigzag(u)
  }

  /** `encode_*`: a tag and a varint. */
  method EncodeScalar(w: W.Writer, field: u32, k: Scalar, v: int)
    requires field > 0 && Fits(k, v)
    modifies w
    ensures w.buf == old(w.buf) + EncodeTag(Tag(field, Varint64)) + Varint.Encode(ToVarint(k, v))
  {
    w.WriteTag(field, Varint64);
    w.WriteVarint(ToVarint(k, v));
  }

  function ReadAs(k: Scalar, s: S.Cursor): (o: S.Out<int>)
    ensures o.Done? ==> S.Onward(s, o.next) && |o.next.rest| < |s.rest|
  {
    var o := S.ReadVarint(s);
    if o.Fail? then S.Fail(o.error, o.at) else S.Done(FromVarint(k, o.value), o.next)
  }

  /** `read_*`, behind the tag. */
  method ReadScalar(r: R.Reader, k: Scalar) returns (res: Result<int, Error>)
    requires r.Valid()
    modifies r
    ensures r.Follows(ReadAs(k, old(r.At())), res)
  {
    var u := r.ReadVarint();
    res := if u.Failure? then Failure(u.error) else Success(FromVarint(k, u.value));
  }

  /** Every value of every type is read back from its varint, in a reader with room for it. */
  lemma ScalarRoundTrip(k: Scalar, v: int, s: S.Cursor, tail: bytes)
    requires Fits(k, v) && s.rest == Varint.Encode(ToVarint(k, v)) + tail
    requires Within(s.limits.maxBytes, s.read + |Varint.Encode(ToVarint(k, v))|)
    ensures ReadAs(k, s) == S.Done(v, S.Past(s, |Varint.Encode(ToVarint(k, v))|, 0, tail))
  {
    hide S.ReadVarint, Varint.Encode;
    RT.ReadVarintEncoded(ToVarint(k, v), s, tail);
    ScalarBits(k, v);
  }

  lemma ScalarBits(k: Scalar, v: int)
    requires Fits(k, v)
    ensures FromVarint(k, ToVarint(k, v)) == v
  {
    hide Unsigned, Signed32, Signed64, Zigzag, Unzigzag;
    match k
    case Int32 => SignedBack(v);
    case Int64 => SignedBack(v);
    case Sint32 => ZigzagBack(v);
    case Sint64 => ZigzagBack(v);
    case _ => assert Unsigned(v) == v by { SignedBack(v); }
  }

  lemma SignedBack(v: int)
    requires -HALF64 <= v < U64
    ensures -HALF32 <= v < HALF32 ==> Signed32(Unsigned(v)) == v
    ensures v < HALF64 ==> Signed64(Unsigned(v)) == v
    ensures v >= 0 ==> Unsigned(v) == v
  {
  }

  lemma ZigzagBack(v: int)
    ensures Unzigzag(Zigzag(v)) == v
    ensures -HALF32 <= v < HALF32 ==> Zigzag(v) % U32 == Zigzag(v)
  {
  }

  predicate Plain(k: Scalar) {
    k.Int32? || k.Int64? || k.Uint32? || k.Uint64?
  }

  /** A field whose type is changed among the plain integers reads the old value exactly when the new type has it. */
  lemma TypeChange(k: Scalar, k': Scalar, v: int)
    requires Plain(k) && Plain(k') && Fits(k, v)
    ensures FromVarint(k', ToVarint(k, v)) == v <==> Fits(k', v)
  {
  }

  /** Zigzag numbers the values by their distance from zero, so that none close to zero takes many bytes. */
  lemma ZigzagSmall(v: int, n: nat)
    requires Fits(Sint64, v) && n >= 1
    ensures |Varint.Encode(Zigzag(v))| <= n <==> -(Varint.Pow128(n) as int) <= 2 * v < Varint.Pow128(n)
  {
    Varint.EncodeLength(Zigzag(v), n);
    EvenPow(n);
  }

  lemma EvenPow(n: nat)
    requires n >= 1
    ensures Varint.Pow128(n) % 2 == 0
  {
  }

  /** The plain types write every negative value in ten bytes. */
  lemma NegativeTakesTen(k: Scalar, v: int)
    requires (k.Int32? || k.Int64?) && Fits(k, v) && v < 0
    ensures |Varint.Encode(ToVarint(k, v))| == 10
  {
    Varint.Pow128Ten();
    Varint.EncodeLength(ToVarint(k, v), 9);
    Varint.EncodeLength(ToVarint(k, v), 10);
  }

  /**
   * What any 64 bits read as, by type: the number of that type that is the same modulo 2^32 or 2^64; a boolean is true
   * unless they are 0; a zigzag number counts 0, -1, 1, -2 and so on.
   */
  lemma ReadMeaning(k: Scalar, u: u64)
    ensures var v := FromVarint(k, u);
            match k
            case Int32 => -0x8000_0000 <= v < 0x8000_0000 && (v - u) % 0x1_0000_0000 == 0
            case Uint32 => 0 <= v < 0x1_0000_0000 && (v - u) % 0x1_0000_0000 == 0
            case Int64 => -0x8000_0000_0000_0000 <= v < 0x8000_0000_0000_0000 && (v == u || v + 0x1_0000_0000_0000_0000 == u)
            case Uint64 => v == u
            case Bool => v == if u == 0 then 0 else 1
            case Sint32 => u % 0x1_0000_0000 == if v >= 0 then 2 * v else -2 * v - 1
            case Sint64 => u == if v >= 0 then 2 * v else -2 * v - 1
  {
    var (q, low) := (u / 0x1_0000_0000, u % 0x1_0000_0000);
    assert u == q * 0x1_0000_0000 + low;
    if k == Int32 && low >= HALF32 { assert low - U32 - u == (-1 - q) * 0x1_0000_0000; }
    if k == Int32 && low < HALF32 { assert low - u == -q * 0x1_0000_0000; }
    if k == Uint32 { assert low - u == -q * 0x1_0000_0000; }
  }

  /** And the 64 bits a value is written as. */
  lemma WriteMeaning(k: Scalar, v: int)
    requires Fits(k, v)
    ensures ToVarint(k, v) ==
            if k == Sint32 || k == Sint64 then (if v >= 0 then 2 * v else -2 * v - 1)
            else if v >= 0 then v else v + 0x1_0000_0000_0000_0000
  {
  }
}
