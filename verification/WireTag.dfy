/** Wire types and field tags (wire_type.rs). */
module WireTag {
  import opened Wrappers
  import opened WireBasics
  import Varint

  datatype WireType = Varint64 | Fixed64 | LengthDelimited | StartGroup | EndGroup | Fixed32
  {
    function AsU8(): (n: nat)
      ensures n <= 5 && WireTypeFromU8(n) == Some(this)
    {
      match this
      case Varint64 => 0
      case Fixed64 => 1
      case LengthDelimited => 2
      case StartGroup => 3
      case EndGroup => 4
      case Fixed32 => 5
    }
  }

  function WireTypeFromU8(n: nat): (w: Option<WireType>)
  {
    match n
    case 0 => Some(Varint64)
    case 1 => Some(Fixed64)
    case 2 => Some(LengthDelimited)
    case 3 => Some(StartGroup)
    case 4 => Some(EndGroup)
    case 5 => Some(Fixed32)
    case _ => None
  }

  datatype Tag = Tag(field: u32, wire: WireType)

  /** Field numbers whose tag survives the 32-bit shift. */
  const MAX_FIELD_NUMBER: nat := 0x1FFF_FFFF

  /** `(field_number << 3) | wire_type` in `u32`: the shift drops the three top bits. */
  function Raw(tag: Tag): u32 {
    (tag.field * 8) % U32 + tag.wire.AsU8()
  }

  function EncodeTag(tag: Tag): bytes {
    Varint.Encode(Raw(tag))
  }

  function DecodeTag(rest: bytes): (r: Result<(Tag, nat), Error>)
    ensures r.Success? ==> 0 < r.value.1 <= |rest| && r.value.0.field > 0
  {
    var (raw, n) :- Varint.Decode(rest);
    var field: u32 := (raw / 8) % U32;
    var wire := WireTypeFromU8(raw % 8);
    if wire.None? then Failure(InvalidTag(raw % U32))
    else if field == 0 then Failure(InvalidTag(field))
    else Success((Tag(field, wire.value), n))
  }

  /** `Tag::encode`. Its caller `Writer::write_tag` panics on field number 0. */
  method AppendTag(tag: Tag, buf: bytes) returns (out: bytes)
    requires tag.field > 0
    ensures out == buf + EncodeTag(tag)
  {
    out := Varint.EncodeVarint(Raw(tag), buf);
  }

  lemma RawMeaning(tag: Tag)
    ensures Raw(tag) % 8 == tag.wire.AsU8()
    ensures Raw(tag) / 8 == tag.field % 0x2000_0000
  {
    assert tag.field == 0x2000_0000 * (tag.field / 0x2000_0000) + tag.field % 0x2000_0000;
    assert (tag.field * 8) % U32 == 8 * (tag.field % 0x2000_0000);
  }

  /** A tag reads back as itself exactly when its number fits 29 bits (and is not zero). */
  lemma TagRoundTrip(tag: Tag, tail: bytes)
    ensures DecodeTag(EncodeTag(tag) + tail) == Success((tag, |EncodeTag(tag)|))
            <==> 1 <= tag.field <= MAX_FIELD_NUMBER
  {
    hide Raw, Varint.Encode, Varint.Decode;
    Varint.RoundTrip(Raw(tag), tail);
    RawMeaning(tag);
  }

  /** A tag past 29 bits is read back as another field, or not at all; never as itself. */
  lemma TagTruncated(tag: Tag, tail: bytes)
    requires tag.field > MAX_FIELD_NUMBER
    ensures var low := tag.field % 0x2000_0000;
            DecodeTag(EncodeTag(tag) + tail) ==
              if low == 0 then Failure(InvalidTag(0)) else Success((Tag(low, tag.wire), |EncodeTag(tag)|))
  {
    hide Raw, Varint.Encode, Varint.Decode;
    Varint.RoundTrip(Raw(tag), tail);
    RawMeaning(tag);
  }

  /** The wire type never changes the length of a tag, so sizing it as a varint field is exact. */
  lemma {:induction false} TagLength(tag: Tag, other: WireType)
    ensures |EncodeTag(tag)| == |EncodeTag(tag.(wire := other))|
  {
    RawMeaning(tag);
    RawMeaning(tag.(wire := other));
    LowBits(Raw(tag), Raw(tag.(wire := other)));
  }

  lemma {:induction false} LowBits(a: nat, b: nat)
    requires a / 8 == b / 8
    ensures |Varint.Encode(a)| == |Varint.Encode(b)|
  {
    assert a / 128 == a / 8 / 16 && b / 128 == b / 8 / 16;
    if a >= 128 {
      assert b >= 128;
    }
  }

  /** Every string read as a tag is at least as long as the tag this runtime would write. */
  lemma TagShortest(s: bytes, tag: Tag, n: nat)
    requires DecodeTag(s) == Success((tag, n))
    ensures |EncodeTag(tag)| <= n
  {
    var raw := Varint.Decode(s).value.0;
    Varint.EncodeShortest(s, raw, n);
    assert Raw(tag) <= raw by {
      assert raw == 8 * (raw / 8) + raw % 8;
      assert tag.field <= raw / 8;
      assert (tag.field * 8) % U32 <= tag.field * 8;
    }
    Varint.EncodeMonotone(Raw(tag), raw);
  }

  lemma {:induction false} TagStable(s: bytes, tail: bytes)
    requires DecodeTag(s).Success?
    ensures DecodeTag(s + tail) == DecodeTag(s)
  {
    Varint.DecodeStable(s, tail);
  }

  /**
   * The numbers of the wire types: the low three bits of a tag, the field number above them; 6 and 7 and the field
   * number 0 are refused.
   */
  lemma TagCodes(s: bytes, v: nat, n: nat, code: nat, wire: WireType)
    requires Varint.Decode(s) == Success((v, n))
    requires (code, wire) in [(0, Varint64), (1, Fixed64), (2, LengthDelimited), (3, StartGroup), (4, EndGroup),
                              (5, Fixed32)]
    ensures var field := v / 8 % 0x1_0000_0000;
            && (v % 8 == code && field != 0 ==> DecodeTag(s) == Success((Tag(field, wire), n)))
            && (v % 8 == code && field == 0 ==> DecodeTag(s) == Failure(InvalidTag(0)))
            && (v % 8 >= 6 ==> DecodeTag(s) == Failure(InvalidTag(v % 0x1_0000_0000)))
    ensures forall field: u32 :: field < 0x2000_0000 ==> EncodeTag(Tag(field, wire)) == Varint.Encode(8 * field + code)
  {
    hide Varint.Decode, Varint.Encode, WireTypeFromU8, WireType.AsU8, Raw;
    CodeTable(code, wire);
    NoCode(v % 8);
    forall field: u32 | field < 0x2000_0000
      ensures Raw(Tag(field, wire)) == 8 * field + code
    {
      RawMeaning(Tag(field, wire));
    }
  }

  lemma CodeTable(code: nat, wire: WireType)
    requires (code, wire) in [(0, Varint64), (1, Fixed64), (2, LengthDelimited), (3, StartGroup), (4, EndGroup),
                              (5, Fixed32)]
    ensures wire.AsU8() == code && WireTypeFromU8(code) == Some(wire)
  {
  }

  lemma NoCode(code: nat)
    ensures code >= 6 ==> WireTypeFromU8(code) == None
  {
  }
}
