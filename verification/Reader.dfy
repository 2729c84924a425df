/** The `Reader` object of reader.rs: a buffer, a position, and the counters the limits are checked against. */
module Reader {
  import opened Wrappers
  import opened WireBasics
  import opened WireTag
  import S = ReaderSpec
  import Utf8
  import Varint

  class Reader {
    const buf: bytes
    const depth: nat
    const limits: DecoderLimits
    var pos: nat
    var fieldCount: nat
    var bytesRead: nat

    ghost predicate Valid()
      reads this
    {
      pos <= |buf|
    }

    /** The cursor this reader stands for. */
    ghost function At(): S.Cursor
      requires Valid()
      reads this
    {
      S.Cursor(pos, buf[pos..], depth, fieldCount, bytesRead, limits)
    }

    /** The reader is where `o` leaves its cursor, and `r` is what `o` reports. */
    ghost predicate Follows<T>(o: S.Out<T>, r: Result<T, Error>)
      reads this
    {
      && Valid()
      && At() == (if o.Done? then o.next else o.at)
      && r == (if o.Done? then Success(o.value) else Failure(o.error))
    }

    constructor (buf: bytes, limits: DecoderLimits)
      ensures Valid() && At() == S.Fresh(buf, limits)
    {
      this.buf, this.depth, this.limits := buf, 0, limits;
      pos, fieldCount, bytesRead := 0, 0, 0;
      new;
      assert buf[0..] == buf;
    }

    constructor AtDepth(buf: bytes, depth: nat, limits: DecoderLimits)
      ensures Valid() && At() == S.Cursor(0, buf, depth, 0, 0, limits)
      ensures this.buf == buf
    {
      this.buf, this.depth, this.limits := buf, depth, limits;
      pos, fieldCount, bytesRead := 0, 0, 0;
      new;
      assert buf[0..] == buf;
    }

    method IsEmpty() returns (b: bool)
      requires Valid()
      ensures b <==> At().rest == []
    {
      b := pos >= |buf|;
    }

    method SetPos(p: nat) returns (r: Result<(), Error>)
      requires Valid()
      modifies `pos
      ensures Valid() && pos == if p <= |buf| then p else old(pos)
      ensures r == if p <= |buf| then Success(()) else Failure(UnexpectedEof)
    {
      if p > |buf| { return Failure(UnexpectedEof); }
      pos := p;
      r := Success(());
    }

    method Advance(n: nat) returns (r: Result<(), Error>)
      requires Valid()
      modifies `pos, `bytesRead
      ensures Follows(S.Advance(old(At()), n), r)
    {
      if n > |buf| - pos {
        return Failure(if pos + n >= U64 then Overflow else UnexpectedEof);
      }
      assert buf[pos..][n..] == buf[pos + n..];
      pos := pos + n;
      bytesRead := bytesRead + n;
      r := if Within(limits.maxBytes, bytesRead) then Success(()) else Failure(LimitExceeded(MaxBytes));
    }

    method ReadVarint() returns (r: Result<u64, Error>)
      requires Valid()
      modifies `pos, `bytesRead
      ensures Follows(S.ReadVarint(old(At())), r)
    {
      var d := Varint.DecodeVarint(buf, pos);
      if d.Failure? { return Failure(d.error); }
      var a := Advance(d.value.1);
      r := if a.Failure? then Failure(a.error) else Success(d.value.0);
    }

    method ReadVarintRaw() returns (r: Result<(u64, bytes), Error>)
      requires Valid()
      modifies `pos, `bytesRead
      ensures Follows(S.ReadVarintRaw(old(At())), r)
    {
      var d := Varint.DecodeVarint(buf, pos);
      if d.Failure? { return Failure(d.error); }
      var slice := buf[pos..pos + d.value.1];
      assert slice == buf[pos..][..d.value.1];
      var a := Advance(d.value.1);
      r := if a.Failure? then Failure(a.error) else Success((d.value.0, slice));
    }

    method ReadTag() returns (r: Result<Tag, Error>)
      requires Valid()
      modifies this
      ensures Follows(S.ReadTag(old(At())), r)
    {
      var d := DecodeTag(buf[pos..]);
      if d.Failure? { return Failure(d.error); }
      var a := Advance(d.value.1);
      if a.Failure? { return Failure(a.error); }
      fieldCount := fieldCount + 1;
      r := if Within(limits.maxFields, fieldCount) then Success(d.value.0) else Failure(LimitExceeded(MaxFields));
    }

    method ReadLengthDelimited() returns (r: Result<bytes, Error>)
      requires Valid()
      modifies `pos, `bytesRead
      ensures Follows(S.ReadLengthDelimited(old(At())), r)
    {
      var v := ReadVarint();
      if v.Failure? { return Failure(v.error); }
      var len := v.value;
      if !Within(limits.maxLengthDelimited, len) { return Failure(LimitExceeded(MaxLengthDelimited)); }
      if len > |buf| - pos {
        return Failure(if pos + len >= U64 then Overflow else LengthLimitExceeded(len));
      }
      var slice := buf[pos..pos + len];
      assert slice == buf[pos..][..len];
      var a := Advance(len);
      r := if a.Failure? then Failure(a.error) else Success(slice);
    }

    method ReadFixed32() returns (r: Result<u32, Error>)
      requires Valid()
      modifies `pos, `bytesRead
      ensures Follows(S.ReadFixed32(old(At())), r)
    {
      if 4 > |buf| - pos { return Failure(UnexpectedEof); }
      S.FixedBound(buf[pos..], 4);
      var v: u32 := FromLittleEndian(buf[pos..][..4]);
      var a := Advance(4);
      r := if a.Failure? then Failure(a.error) else Success(v);
    }

    method ReadFixed64() returns (r: Result<u64, Error>)
      requires Valid()
      modifies `pos, `bytesRead
      ensures Follows(S.ReadFixed64(old(At())), r)
    {
      if 8 > |buf| - pos { return Failure(UnexpectedEof); }
      S.FixedBound(buf[pos..], 8);
      var v: u64 := FromLittleEndian(buf[pos..][..8]);
      var a := Advance(8);
      r := if a.Failure? then Failure(a.error) else Success(v);
    }

    /** `read_string_owned`; `read_string` differs only in what it borrows. */
    method ReadString() returns (r: Result<Utf8.Str, Error>)
      requires Valid()
      modifies `pos, `bytesRead
      ensures Follows(S.ReadString(old(At())), r)
    {
      var b := ReadLengthDelimited();
      if b.Failure? { return Failure(b.error); }
      if !Within(limits.maxStringLen, |b.value|) { return Failure(LimitExceeded(MaxStringLen)); }
      if !Utf8.IsUtf8(b.value) { return Failure(Utf8Error(Utf8.ValidUpTo(b.value))); }
      r := Success(b.value);
    }

    method Nested(body: bytes) returns (r: Result<Reader, Error>)
      requires Valid()
      ensures r.Success? <==> S.Nested(At(), body).Done?
      ensures r.Success? ==> fresh(r.value) && r.value.Valid() && r.value.At() == S.Nested(At(), body).value
      ensures r.Success? ==> r.value.buf == body
      ensures r.Failure? ==> r.error == S.Nested(At(), body).error
    {
      if depth + 1 > limits.maxDepth { return Failure(DepthLimitExceeded); }
      var sub := new Reader.AtDepth(body, depth + 1, limits);
      r := Success(sub);
    }

    method Skip(wire: WireType) returns (r: Result<(), Error>)
      requires Valid()
      modifies this
      ensures Follows(S.Skip(wire, old(At())), r)
    {
      r := SkipInner(wire, depth);
    }

    method SkipInner(wire: WireType, level: nat) returns (r: Result<(), Error>)
      requires Valid()
      modifies this
      ensures Follows(S.SkipInner(wire, level, old(At())), r)
      decreases |buf| - pos, 1
    {
      match wire {
        case Varint64 =>
          var v := ReadVarint();
          r := if v.Failure? then Failure(v.error) else Success(());
        case Fixed64 =>
          var v := ReadFixed64();
          r := if v.Failure? then Failure(v.error) else Success(());
        case Fixed32 =>
          var v := ReadFixed32();
          r := if v.Failure? then Failure(v.error) else Success(());
        case LengthDelimited =>
          var v := ReadVarint();
          if v.Failure? { return Failure(v.error); }
          if !Within(limits.maxLengthDelimited, v.value) { return Failure(LimitExceeded(MaxLengthDelimited)); }
          r := Advance(v.value);
        case StartGroup =>
          if level + 1 > limits.maxDepth { return Failure(DepthLimitExceeded); }
          r := SkipGroup(level + 1);
        case EndGroup =>
          r := Failure(UnexpectedWireType(4));
      }
    }

    /** The loop of `skip_inner` that runs to the end tag. */
    method SkipGroup(childDepth: nat) returns (r: Result<(), Error>)
      requires Valid()
      modifies this
      ensures Follows(S.SkipGroup(childDepth, old(At())), r)
      decreases |buf| - pos, 0
    {
      ghost var start := At();
      while true
        invariant Valid() && pos >= old(pos)
        invariant S.SkipGroup(childDepth, At()) == S.SkipGroup(childDepth, start)
        decreases |buf| - pos
      {
        if pos >= |buf| { return Failure(UnterminatedGroup(0)); }
        var tag := ReadTag();
        if tag.Failure? { return Failure(tag.error); }
        if tag.value.wire == EndGroup { return Success(()); }
        var v := SkipInner(tag.value.wire, childDepth);
        if v.Failure? { return Failure(v.error); }
      }
    }
  }
}
