/** Packed repeated fields and map entries (packed.rs). */
module Packed {
  import opened Wrappers
  import opened WireBasics
  import opened WireTag
  import opened ReaderSpec
  import C = Scalars
  import RT = WireRoundTrip
  import R = Reader
  import W = Writer
  import Varint

  // ------------------------------------------------------------------------ packed bytes

  /** Element encodings: a varint read as one of the scalar types, or little-endian of a fixed width. */
  datatype Element = VarintElement(k: C.Scalar) | FixedElement(width: nat)

  predicate Sized(e: Element, v: int) {
    match e
    case VarintElement(k) => C.Fits(k, v)
    case FixedElement(width) => (width == 4 && 0 <= v < U32) || (width == 8 && 0 <= v < U64)
  }

  predicate AllSized(e: Element, vs: seq<int>) {
    forall v :: v in vs ==> Sized(e, v)
  }

  function EncodeOne(e: Element, v: int): bytes
    requires Sized(e, v)
  {
    match e
    case VarintElement(k) => Varint.Encode(C.ToVarint(k, v))
    case FixedElement(width) => ToLittleEndian(v, width)
  }

  function EncodeElements(e: Element, vs: seq<int>): bytes
    requires AllSized(e, vs)
  {
    if vs == [] then [] else EncodeOne(e, vs[0]) + EncodeElements(e, vs[1..])
  }

  function ReadOne(e: Element, s: Cursor): (o: Out<int>)
    requires e.FixedElement? ==> e.width > 0
    ensures o.Done? ==> Onward(s, o.next) && |o.next.rest| < |s.rest|
  {
    match e
    case VarintElement(k) => C.ReadAs(k, s)
    case FixedElement(width) => var v :- ReadFixed(s, width); Done(v.0, v.1)
  }

  /** The loop over the sub-reader. */
  function ReadElements(e: Element, s: Cursor): (o: Out<seq<int>>)
    requires e.FixedElement? ==> e.width > 0
    decreases |s.rest|
  {
    if s.rest == [] then Done([], s)
    else
      var v :- ReadOne(e, s);
      var rest :- ReadElements(e, v.1);
      Done([v.0] + rest.0, rest.1)
  }

  /** `read_packed_*`, after the tag. */
  function ReadPacked(e: Element, s: Cursor): (o: Out<seq<int>>)
    requires e.FixedElement? ==> e.width > 0
  {
    var body :- ReadLengthDelimited(s);
    if e.FixedElement? && |body.0| % e.width != 0 then Fail(RaggedPackedLength, body.1)
    else
      var sub :- Nested(body.1, body.0);
      match ReadElements(e, sub.0)
      case Done(vs, _) => Done(vs, body.1)
      case Fail(err, _) => Fail(err, body.1)
  }

  /** `encode_packed_*` */
  method EncodePacked(w: W.Writer, field: u32, e: Element, vs: seq<int>)
    requires field > 0 && AllSized(e, vs)
    modifies w
    ensures w.buf == old(w.buf) + (EncodeTag(Tag(field, LengthDelimited)) + W.Framed(EncodeElements(e, vs)))
  {
    var inner: bytes := [];
    var i := 0;
    while i < |vs|
      invariant 0 <= i <= |vs|
      invariant inner + EncodeElements(e, vs[i..]) == EncodeElements(e, vs) && w.buf == old(w.buf)
    {
      assert vs[i..][1..] == vs[i + 1..];
      Assoc(inner, EncodeOne(e, vs[i]), EncodeElements(e, vs[i + 1..]));
      match e {
        case VarintElement(k) => inner := Varint.EncodeVarint(C.ToVarint(k, vs[i]), inner);
        case FixedElement(width) => inner := inner + ToLittleEndian(vs[i], width);
      }
      i := i + 1;
    }
    assert inner == EncodeElements(e, vs);
    w.WriteTag(field, LengthDelimited);
    w.WriteLengthDelimited(inner);
    assert w.buf == (old(w.buf) + EncodeTag(Tag(field, LengthDelimited))) + W.Framed(inner);
    Assoc(old(w.buf), EncodeTag(Tag(field, LengthDelimited)), W.Framed(inner));
  }

  predicate Supported(e: Element) {
    e.VarintElement? || e.width == 4 || e.width == 8
  }

  /** `read_packed_varint` with any of the scalar readers, `read_packed_fixed32` and `read_packed_fixed64` */
  method ReadPackedField(r: R.Reader, e: Element) returns (res: Result<seq<int>, Error>)
    requires r.Valid() && Supported(e)
    modifies r
    ensures r.Follows(ReadPacked(e, old(r.At())), res)
  {
    hide ReadLengthDelimited, ReadElements;
    var body := r.ReadLengthDelimited();
    if body.Failure? { return Failure(body.error); }
    if e.FixedElement? && |body.value| % e.width != 0 { return Failure(RaggedPackedLength); }
    var sub := r.Nested(body.value);
    if sub.Failure? { return Failure(sub.error); }
    res := ReadUntilEmpty(sub.value, e);
  }

  method ReadUntilEmpty(sub: R.Reader, e: Element) returns (res: Result<seq<int>, Error>)
    requires sub.Valid() && Supported(e)
    modifies sub
    ensures Reported(ReadElements(e, old(sub.At())), res)
  {
    hide ReadOne, ReadElements, Continues;
    ghost var start := sub.At();
    var out: seq<int> := [];
    ContinuesStart(e, start);
    while true
      invariant sub.Valid()
      invariant Continues(e, start, out, sub.At())
      decreases |sub.buf| - sub.pos
    {
      ghost var c := sub.At();
      var stop := sub.IsEmpty();
      if stop {
        ContinuesEnd(e, start, out, c);
        return Success(out);
      }
      var v := ReadElement(sub, e);
      ContinuesStep(e, start, out, c);
      if v.Failure? { return Failure(v.error); }
      out := out + [v.value];
    }
  }

  method ReadElement(sub: R.Reader, e: Element) returns (res: Result<int, Error>)
    requires sub.Valid() && Supported(e)
    modifies sub
    ensures sub.Follows(ReadOne(e, old(sub.At())), res)
  {
    hide ReadVarint;
    if e.VarintElement? {
      res := C.ReadScalar(sub, e.k);
    } else if e.width == 4 {
      var v := sub.ReadFixed32();
      res := if v.Failure? then Failure(v.error) else Success(v.value);
    } else {
      var v := sub.ReadFixed64();
      res := if v.Failure? then Failure(v.error) else Success(v.value);
    }
  }

  ghost predicate Reported<T>(o: Out<T>, res: Result<T, Error>) {
    res == if o.Done? then Success(o.value) else Failure(o.error)
  }

  function Prepend(done: seq<int>, o: Out<seq<int>>): Out<seq<int>> {
    if o.Done? then Done(done + o.value, o.next) else o
  }

  ghost predicate Continues(e: Element, start: Cursor, done: seq<int>, c: Cursor)
    requires Supported(e)
  {
    ReadElements(e, start) == Prepend(done, ReadElements(e, c))
  }

  lemma ContinuesStart(e: Element, start: Cursor)
    requires Supported(e)
    ensures Continues(e, start, [], start)
  {
    hide ReadElements;
    var o := ReadElements(e, start);
    if o.Done? { assert [] + o.value == o.value; }
  }

  lemma ContinuesEnd(e: Element, start: Cursor, done: seq<int>, c: Cursor)
    requires Supported(e) && Continues(e, start, done, c) && c.rest == []
    ensures Reported(ReadElements(e, start), Success(done))
  {
    assert done + [] == done;
  }

  lemma ContinuesStep(e: Element, start: Cursor, done: seq<int>, c: Cursor)
    requires Supported(e) && Continues(e, start, done, c) && c.rest != []
    ensures var v := ReadOne(e, c);
            if v.Done? then Continues(e, start, done + [v.value], v.next)
            else Reported(ReadElements(e, start), Failure(v.error))
  {
    hide ReadOne;
    var v := ReadOne(e, c);
    if v.Done? {
      var o := ReadElements(e, v.next);
      assert ReadElements(e, c) == Prepend([v.value], o);
      if o.Done? { Assoc(done, [v.value], o.value); }
    }
  }

  // ------------------------------------------------------------------ packed round trip

  lemma ReadsOne(e: Element, v: int, s: Cursor, tail: bytes)
    requires Sized(e, v) && s.rest == EncodeOne(e, v) + tail
    ensures var o := ReadOne(e, s);
            && (o.Done? <==> Within(s.limits.maxBytes, s.read + |EncodeOne(e, v)|))
            && (o.Done? ==> o == Done(v, Past(s, |EncodeOne(e, v)|, 0, tail)))
  {
    Pow256Values();
    hide ReadVarint, ReadFixed, Pow256, ToLittleEndian, Varint.Encode, C.ToVarint, C.FromVarint;
    if e.VarintElement? {
      RT.ReadVarintEncoded(C.ToVarint(e.k, v), s, tail);
      C.ScalarBits(e.k, v);
    } else {
      RT.ReadFixedEncoded(v, e.width, s, tail);
    }
  }

  ghost predicate ReadsBack(e: Element, vs: seq<int>, s: Cursor)
    requires e.FixedElement? ==> e.width > 0
  {
    var o := ReadElements(e, s);
    o.Done? && o.value == vs
  }

  lemma {:induction false} ReadsElements(e: Element, vs: seq<int>, s: Cursor)
    requires Supported(e) && AllSized(e, vs) && s.rest == EncodeElements(e, vs)
    requires Within(s.limits.maxBytes, s.read + |EncodeElements(e, vs)|)
    ensures ReadsBack(e, vs, s)
  {
    hide ReadOne, EncodeOne, ReadElements, EncodeElements, Sized, Continues, ReadsBack;
    if |vs| == 0 {
      ReadsNothing(e, vs, s);
    } else {
      var (v, rest) := (vs[0], vs[1..]);
      assert v in vs;
      ElementsFirst(e, vs);
      OneNonempty(e, v);
      ReadsOne(e, v, s, EncodeElements(e, rest));
      var next := ReadOne(e, s).next;
      ReadsElements(e, rest, next);
      ContinuesStart(e, s);
      ContinuesStep(e, s, [], s);
      assert [] + [v] == [v] && vs == [v] + rest;
      ReadsOn(e, s, v, next, rest);
    }
  }

  lemma ReadsNothing(e: Element, vs: seq<int>, s: Cursor)
    requires Supported(e) && AllSized(e, vs) && |vs| == 0 && s.rest == EncodeElements(e, vs)
    ensures ReadsBack(e, vs, s)
  {
  }

  lemma ElementsFirst(e: Element, vs: seq<int>)
    requires AllSized(e, vs) && |vs| > 0
    ensures Sized(e, vs[0]) && AllSized(e, vs[1..])
    ensures EncodeElements(e, vs) == EncodeOne(e, vs[0]) + EncodeElements(e, vs[1..])
  {
    hide EncodeOne, Sized;
    assert vs[0] in vs;
  }

  lemma ReadsOn(e: Element, s: Cursor, v: int, next: Cursor, rest: seq<int>)
    requires Supported(e) && Continues(e, s, [v], next) && ReadsBack(e, rest, next)
    ensures ReadsBack(e, [v] + rest, s)
  {
    hide ReadElements;
  }

  lemma OneNonempty(e: Element, v: int)
    requires Supported(e) && Sized(e, v)
    ensures EncodeOne(e, v) != []
  {
  }

  lemma {:induction false} FixedLength(e: Element, vs: seq<int>)
    requires e.FixedElement? && Supported(e) && AllSized(e, vs)
    ensures |EncodeElements(e, vs)| % e.width == 0
  {
    if vs != [] {
      FixedLength(e, vs[1..]);
      var n := |EncodeElements(e, vs[1..])|;
      assert (n + 4) % 4 == n % 4 && (n + 8) % 8 == n % 8;
    }
  }

  /**
   * Any list survives packing exactly when its body fits the length and byte limits and the reader has a level of
   * nesting left; the reader then stands right behind it.
   */
  lemma PackedRoundTrip(e: Element, vs: seq<int>, s: Cursor, tail: bytes)
    requires Supported(e) && AllSized(e, vs) && |EncodeElements(e, vs)| < U64
    requires s.rest == W.Framed(EncodeElements(e, vs)) + tail
    ensures var (o, body) := (ReadPacked(e, s), EncodeElements(e, vs));
            && (o.Done? <==>
                && Within(s.limits.maxLengthDelimited, |body|)
                && Within(s.limits.maxBytes, s.read + |W.Framed(body)|)
                && s.depth + 1 <= s.limits.maxDepth)
            && (o.Done? ==> o == Done(vs, Past(s, |W.Framed(body)|, 0, tail)))
  {
    hide ReadLengthDelimited, ReadElements, EncodeElements;
    var body := EncodeElements(e, vs);
    RT.ReadFramed(body, s, tail);
    if e.FixedElement? { FixedLength(e, vs); }
    if Within(s.limits.maxBytes, s.read + |W.Framed(body)|) {
      ReadsElements(e, vs, Cursor(0, body, s.depth + 1, 0, 0, s.limits));
    }
  }
}
