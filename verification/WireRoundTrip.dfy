/** Reading back, in place and with more input behind, what the `Writer` primitives put down. */
module WireRoundTrip {
  import opened WireBasics
  import opened WireTag
  import opened ReaderSpec
  import W = Writer
  import Varint

  lemma ReadVarintEncoded(v: u64, s: Cursor, tail: bytes)
    requires s.rest == Varint.Encode(v) + tail
    ensures ReadVarint(s).Done? <==> Within(s.limits.maxBytes, s.read + |Varint.Encode(v)|)
    ensures ReadVarint(s).Done? ==> ReadVarint(s) == Done(v, Past(s, |Varint.Encode(v)|, 0, tail))
  {
    Varint.RoundTrip(v, tail);
    assert s.rest[|Varint.Encode(v)|..] == tail;
  }

  lemma ReadTagEncoded(tag: Tag, s: Cursor, tail: bytes)
    requires s.rest == EncodeTag(tag) + tail && 1 <= tag.field <= MAX_FIELD_NUMBER
    ensures ReadTag(s).Done? <==>
            Within(s.limits.maxBytes, s.read + |EncodeTag(tag)|) && Within(s.limits.maxFields, s.fields + 1)
    ensures ReadTag(s).Done? ==> ReadTag(s) == Done(tag, Past(s, |EncodeTag(tag)|, 1, tail))
  {
    TagRoundTrip(tag, tail);
    assert s.rest[|EncodeTag(tag)|..] == tail;
  }

  lemma ReadFramed(body: bytes, s: Cursor, tail: bytes)
    requires s.rest == W.Framed(body) + tail && |body| < U64
    ensures ReadLengthDelimited(s).Done? <==>
            Within(s.limits.maxLengthDelimited, |body|) && Within(s.limits.maxBytes, s.read + |W.Framed(body)|)
    ensures ReadLengthDelimited(s).Done? ==>
              ReadLengthDelimited(s) == Done(body, Past(s, |W.Framed(body)|, 0, tail))
  {
    assert s.rest == Varint.Encode(|body|) + (body + tail);
    ReadVarintEncoded(|body|, s, body + tail);
    assert (body + tail)[..|body|] == body && (body + tail)[|body|..] == tail;
  }

  lemma ReadFixedEncoded(v: nat, n: nat, s: Cursor, tail: bytes)
    requires s.rest == ToLittleEndian(v, n) + tail && v < Pow256(n)
    ensures ReadFixed(s, n).Done? <==> Within(s.limits.maxBytes, s.read + n)
    ensures ReadFixed(s, n).Done? ==> ReadFixed(s, n) == Done(v, Past(s, n, 0, tail))
  {
    LittleEndianRoundTrip(v, n);
    assert s.rest[..n] == ToLittleEndian(v, n) && s.rest[n..] == tail;
  }

  lemma ReadFixed32Encoded(v: u32, s: Cursor, tail: bytes)
    requires s.rest == ToLittleEndian(v, 4) + tail
    ensures ReadFixed32(s).Done? <==> Within(s.limits.maxBytes, s.read + 4)
    ensures ReadFixed32(s).Done? ==> ReadFixed32(s) == Done(v, Past(s, 4, 0, tail))
  {
    Pow256Values();
    hide Pow256, ToLittleEndian, ReadFixed;
    ReadFixedEncoded(v, 4, s, tail);
  }

  lemma ReadFixed64Encoded(v: u64, s: Cursor, tail: bytes)
    requires s.rest == ToLittleEndian(v, 8) + tail
    ensures ReadFixed64(s).Done? <==> Within(s.limits.maxBytes, s.read + 8)
    ensures ReadFixed64(s).Done? ==> ReadFixed64(s) == Done(v, Past(s, 8, 0, tail))
  {
    Pow256Values();
    hide Pow256, ToLittleEndian, ReadFixed;
    ReadFixedEncoded(v, 8, s, tail);
  }
}
