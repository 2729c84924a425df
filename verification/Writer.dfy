/** The `Writer` object of writer.rs. */
module Writer {
  import opened WireBasics
  import opened WireTag
  import Varint

  /** `write_length_delimited` */
  function Framed(body: bytes): bytes
  {
    Varint.Encode(|body|) + body
  }

  class Writer {
    var buf: bytes

    constructor ()
      ensures buf == []
    {
      buf := [];
    }

    method Push(b: byte)
      modifies this
      ensures buf == old(buf) + [b]
    {
      buf := buf + [b];
    }

    /** Panics on field number 0 in the original, hence the precondition. */
    method WriteTag(field: u32, wire: WireType)
      requires field > 0
      modifies this
      ensures buf == old(buf) + EncodeTag(Tag(field, wire))
    {
      buf := AppendTag(Tag(field, wire), buf);
    }

    method WriteVarint(v: u64)
      modifies this
      ensures buf == old(buf) + Varint.Encode(v)
    {
      buf := Varint.EncodeVarint(v, buf);
    }

    method WriteLengthDelimited(body: bytes)
      modifies this
      ensures buf == old(buf) + Framed(body)
    {
      buf := Varint.EncodeVarint(|body|, buf);
      buf := buf + body;
    }

    method WriteFixed32(v: u32)
      modifies this
      ensures buf == old(buf) + ToLittleEndian(v, 4)
    {
      buf := buf + ToLittleEndian(v, 4);
    }

    method WriteFixed64(v: u64)
      modifies this
      ensures buf == old(buf) + ToLittleEndian(v, 8)
    {
      buf := buf + ToLittleEndian(v, 8);
    }
  }
}
