/** The `Message` implementations of types.rs as code: `encode` on a `Writer`, `merge_from` on a `Reader`. */
module DescriptorMethods {
  import opened Wrappers
  import opened WireBasics
  import opened WireTag
  import opened Descriptor
  import opened DescriptorCodec
  import S = ReaderSpec
  import R = Reader
  import W = Writer

  // --------------------------------------------------------------------------- encode

  lemma Extend(base: bytes, done: seq<Item>, more: seq<Item>, buf: bytes)
    requires buf == base + EncodeItems(done) + EncodeItems(more)
    ensures buf == base + EncodeItems(done + more)
  {
    EncodeItemsConcat(done, more);
  }

  lemma OneItem(it: Item)
    ensures EncodeItems([it]) == EncodeItem(it)
  {
    assert [it][1..] == [];
  }

  lemma NothingWritten(base: bytes)
    ensures base + EncodeItems([]) == base
  {
  }

  /** Writes the value of a field; a nested message goes through a writer of its own. */
  method WriteValue(w: W.Writer, v: Value)
    modifies w
    ensures w.buf == old(w.buf) + EncodeValue(v)
    decreases ValueRank(v), 0
  {
    match v {
      case StrV(s) => w.WriteLengthDelimited(s);
      case BytesV(b) => w.WriteLengthDelimited(b);
      case IntV(i) => w.WriteVarint(Unsigned(i));
      case BoolV(b) => w.WriteVarint(if b then 1 else 0);
      case MsgV(m) =>
        var inner := new W.Writer();
        Encode(m, inner);
        assert inner.buf == EncodeMsg(m);
        w.WriteLengthDelimited(inner.buf);
    }
  }

  method WriteItem(w: W.Writer, it: Item, ghost base: bytes, ghost done: seq<Item>)
    requires it.field > 0 && w.buf == base + EncodeItems(done)
    modifies w
    ensures w.buf == base + EncodeItems(done + [it])
    decreases ValueRank(it.value), 1
  {
    hide EncodeValue, EncodeTag, EncodeItems;
    w.WriteTag(it.field, WireOf(it.value));
    WriteValue(w, it.value);
    OneItem(it);
    Assoc(base + EncodeItems(done), EncodeTag(Tag(it.field, WireOf(it.value))), EncodeValue(it.value));
    Extend(base, done, [it], w.buf);
  }

  /** `encode_opt_*`: at most one field. */
  method WriteOpt(w: W.Writer, items: seq<Item>, ghost base: bytes, ghost done: seq<Item>, ghost bound: nat)
    returns (ghost out: seq<Item>)
    requires w.buf == base + EncodeItems(done)
    requires |items| <= 1 && (items != [] ==> items[0].field > 0 && ValueRank(items[0].value) <= bound)
    modifies w
    ensures out == done + items && w.buf == base + EncodeItems(out)
    decreases bound, 2
  {
    if items != [] {
      WriteItem(w, items[0], base, done);
      assert items == [items[0]];
    } else {
      assert done + items == done;
    }
    out := done + items;
  }

  /** `encode_repeated_*` and the loops over nested messages. */
  method WriteEach<T>(w: W.Writer, n: u32, xs: seq<T>, f: T -> Value, ghost base: bytes, ghost done: seq<Item>,
                      ghost bound: nat)
    returns (ghost out: seq<Item>)
    requires n > 0 && w.buf == base + EncodeItems(done)
    requires forall x :: x in xs ==> ValueRank(f(x)) <= bound
    modifies w
    ensures out == done + Each(n, xs, f) && w.buf == base + EncodeItems(out)
    decreases bound, 2
  {
    out := done;
    var i := 0;
    while i < |xs|
      invariant 0 <= i <= |xs|
      invariant out + Each(n, xs[i..], f) == done + Each(n, xs, f)
      invariant w.buf == base + EncodeItems(out)
    {
      assert xs[i..][1..] == xs[i + 1..];
      var it := Item(n, f(xs[i]));
      WriteItem(w, it, base, out);
      ghost var rest := Each(n, xs[i + 1..], f);
      assert out + ([it] + rest) == (out + [it]) + rest;
      out := out + [it];
      i := i + 1;
    }
    assert Each(n, xs[i..], f) == [];
  }

  /** `encode`: the fields of each kind, in the order types.rs writes them. */
  method Encode(m: Message, w: W.Writer)
    modifies w
    ensures w.buf == old(w.buf) + EncodeMsg(m)
    decreases Rank(m), 5
  {
    match m {
      case SetMsg(x) => EncodeSet(x, w);
      case SourceMsg(x) => EncodeSource(x, w);
      case FileMsg(x) => EncodeFile(x, w);
      case LocationMsg(x) => EncodeLocation(x, w);
      case DescriptorMsg(x) => EncodeDescriptor(x, w);
      case FieldMsg(x) => EncodeField(x, w);
      case EnumMsg(x) => EncodeEnum(x, w);
      case EnumValueMsg(x) => EncodeEnumValue(x, w);
      case OneofMsg(x) => EncodeOneof(x, w);
      case ReservedMsg(x) => EncodeReserved(x, w);
      case ExtensionRangeMsg(x) => EncodeExtensionRange(x, w);
      case ServiceMsg(x) => EncodeService(x, w);
      case MethodMsg(x) => EncodeMethod(x, w);
    }
  }

  method EncodeSet(x: FileDescriptorSet, w: W.Writer)
    modifies w
    ensures w.buf == old(w.buf) + EncodeMsg(SetMsg(x))
    decreases Rank(SetMsg(x)), 3
  {
    hide EncodeItems, Each;
    ghost var base, rank := w.buf, Rank(SetMsg(x));
    FileBound(x.file);
    ghost var s: seq<Item> := [];
    NothingWritten(base);
    s := WriteEach(w, 1, x.file, OfFile, base, s, rank);
    assert s == Each(1, x.file, OfFile);
  }

  method EncodeSource(x: SourceCodeInfo, w: W.Writer)
    modifies w
    ensures w.buf == old(w.buf) + EncodeMsg(SourceMsg(x))
    decreases Rank(SourceMsg(x)), 3
  {
    hide EncodeItems, Each;
    ghost var base, rank := w.buf, Rank(SourceMsg(x));
    ghost var s: seq<Item> := [];
    NothingWritten(base);
    s := WriteEach(w, 1, x.locations, OfLocation, base, s, rank);
    assert s == Each(1, x.locations, OfLocation);
  }

  method EncodeFile(x: FileDescriptor, w: W.Writer)
    modifies w
    ensures w.buf == old(w.buf) + EncodeMsg(FileMsg(x))
    decreases Rank(FileMsg(x)), 3
  {
    hide EncodeItems, Each;
    ghost var base, rank := w.buf, Rank(FileMsg(x));
    HeightBound(x.messageType);
    ShallowRanks(rank);
    ghost var s: seq<Item> := [];
    NothingWritten(base);
    s := WriteOpt(w, OptStr(1, x.name), base, s, rank);
    assert s == OptStr(1, x.name);
    s := WriteOpt(w, OptStr(2, x.package), base, s, rank);
    s := WriteEach(w, 3, x.dependency, OfStr, base, s, rank);
    s := WriteEach(w, 10, x.publicDependency, OfInt, base, s, rank);
    s := WriteEach(w, 11, x.weakDependency, OfInt, base, s, rank);
    s := WriteEach(w, 4, x.messageType, OfDescriptor, base, s, rank);
    s := WriteEach(w, 5, x.enumType, OfEnum, base, s, rank);
    s := WriteEach(w, 6, x.service, OfService, base, s, rank);
    s := WriteEach(w, 7, x.extension, OfField, base, s, rank);
    s := WriteOpt(w, OptBytes(8, x.options), base, s, rank);
    s := WriteOpt(w, SourceItems(x.sourceCodeInfo), base, s, rank);
    s := WriteOpt(w, OptStr(12, x.syntax), base, s, rank);
  }

  method EncodeLocation(x: Location, w: W.Writer)
    modifies w
    ensures w.buf == old(w.buf) + EncodeMsg(LocationMsg(x))
    decreases Rank(LocationMsg(x)), 3
  {
    hide EncodeItems, Each;
    ghost var base, rank := w.buf, Rank(LocationMsg(x));
    ghost var s: seq<Item> := [];
    NothingWritten(base);
    s := WriteEach(w, 1, x.path, OfInt, base, s, rank);
    assert s == Each(1, x.path, OfInt);
    s := WriteEach(w, 2, x.span, OfInt, base, s, rank);
    s := WriteOpt(w, OptStr(3, x.leadingComments), base, s, rank);
    s := WriteOpt(w, OptStr(4, x.trailingComments), base, s, rank);
    s := WriteEach(w, 6, x.leadingDetachedComments, OfStr, base, s, rank);
  }

  method EncodeDescriptor(x: MessageDescriptor, w: W.Writer)
    modifies w
    ensures w.buf == old(w.buf) + EncodeMsg(DescriptorMsg(x))
    decreases Rank(DescriptorMsg(x)), 3
  {
    hide EncodeItems, Each;
    ghost var base, rank := w.buf, Rank(DescriptorMsg(x));
    HeightBound(x.nestedType);
    ShallowRanks(rank);
    ghost var s: seq<Item> := [];
    NothingWritten(base);
    s := WriteOpt(w, OptStr(1, x.name), base, s, rank);
    assert s == OptStr(1, x.name);
    s := WriteEach(w, 2, x.field, OfField, base, s, rank);
    s := WriteEach(w, 6, x.extension, OfField, base, s, rank);
    s := WriteEach(w, 3, x.nestedType, OfDescriptor, base, s, rank);
    s := WriteEach(w, 4, x.enumType, OfEnum, base, s, rank);
    s := WriteEach(w, 5, x.extensionRange, OfExtensionRange, base, s, rank);
    s := WriteEach(w, 8, x.oneofDecl, OfOneof, base, s, rank);
    s := WriteOpt(w, OptBytes(7, x.options), base, s, rank);
    s := WriteEach(w, 9, x.reservedRange, OfReserved, base, s, rank);
    s := WriteEach(w, 10, x.reservedName, OfStr, base, s, rank);
  }

  method EncodeField(x: FieldDescriptor, w: W.Writer)
    modifies w
    ensures w.buf == old(w.buf) + EncodeMsg(FieldMsg(x))
    decreases Rank(FieldMsg(x)), 4
  {
    hide EncodeItems, Each;
    ghost var base, rank := w.buf, Rank(FieldMsg(x));
    ghost var s: seq<Item> := [];
    NothingWritten(base);
    s := WriteOpt(w, OptStr(1, x.name), base, s, rank);
    assert s == OptStr(1, x.name);
    s := WriteOpt(w, OptStr(2, x.extendee), base, s, rank);
    s := WriteOpt(w, OptInt(3, x.number), base, s, rank);
    s := WriteOpt(w, LabelItems(x.fieldLabel), base, s, rank);
    s := WriteOpt(w, TypeItems(x.ty), base, s, rank);
    s := WriteOpt(w, OptStr(6, x.typeName), base, s, rank);
    s := EncodeFieldRest(x, w, base, s);
  }

  /** The second half of a field descriptor. */
  method EncodeFieldRest(x: FieldDescriptor, w: W.Writer, ghost base: bytes, ghost done: seq<Item>)
    returns (ghost s: seq<Item>)
    requires w.buf == base + EncodeItems(done)
    modifies w
    ensures w.buf == base + EncodeItems(s)
    ensures s == done + OptStr(7, x.defaultValue) + OptInt(9, x.oneofIndex) + OptStr(10, x.jsonName)
                 + OptBytes(8, x.options) + OptBool(17, x.proto3Optional)
    decreases Rank(FieldMsg(x)), 3
  {
    hide EncodeItems, Each;
    ghost var rank := Rank(FieldMsg(x));
    s := WriteOpt(w, OptStr(7, x.defaultValue), base, done, rank);
    s := WriteOpt(w, OptInt(9, x.oneofIndex), base, s, rank);
    s := WriteOpt(w, OptStr(10, x.jsonName), base, s, rank);
    s := WriteOpt(w, OptBytes(8, x.options), base, s, rank);
    s := WriteOpt(w, OptBool(17, x.proto3Optional), base, s, rank);
  }

  method EncodeEnum(x: EnumDescriptor, w: W.Writer)
    modifies w
    ensures w.buf == old(w.buf) + EncodeMsg(EnumMsg(x))
    decreases Rank(EnumMsg(x)), 3
  {
    hide EncodeItems, Each;
    ghost var base, rank := w.buf, Rank(EnumMsg(x));
    ghost var s: seq<Item> := [];
    NothingWritten(base);
    s := WriteOpt(w, OptStr(1, x.name), base, s, rank);
    assert s == OptStr(1, x.name);
    s := WriteEach(w, 2, x.value, OfEnumValue, base, s, rank);
    s := WriteOpt(w, OptBytes(3, x.options), base, s, rank);
    s := WriteEach(w, 4, x.reservedRange, OfReserved, base, s, rank);
    s := WriteEach(w, 5, x.reservedName, OfStr, base, s, rank);
  }

  method EncodeEnumValue(x: EnumValueDescriptor, w: W.Writer)
    modifies w
    ensures w.buf == old(w.buf) + EncodeMsg(EnumValueMsg(x))
    decreases Rank(EnumValueMsg(x)), 3
  {
    hide EncodeItems, Each;
    ghost var base, rank := w.buf, Rank(EnumValueMsg(x));
    ghost var s: seq<Item> := [];
    NothingWritten(base);
    s := WriteOpt(w, OptStr(1, x.name), base, s, rank);
    assert s == OptStr(1, x.name);
    s := WriteOpt(w, OptInt(2, x.number), base, s, rank);
    s := WriteOpt(w, OptBytes(3, x.options), base, s, rank);
  }

  method EncodeOneof(x: OneofDescriptor, w: W.Writer)
    modifies w
    ensures w.buf == old(w.buf) + EncodeMsg(OneofMsg(x))
    decreases Rank(OneofMsg(x)), 3
  {
    hide EncodeItems, Each;
    ghost var base, rank := w.buf, Rank(OneofMsg(x));
    ghost var s: seq<Item> := [];
    NothingWritten(base);
    s := WriteOpt(w, OptStr(1, x.name), base, s, rank);
    assert s == OptStr(1, x.name);
    s := WriteOpt(w, OptBytes(2, x.options), base, s, rank);
  }

  method EncodeReserved(x: ReservedRange, w: W.Writer)
    modifies w
    ensures w.buf == old(w.buf) + EncodeMsg(ReservedMsg(x))
    decreases Rank(ReservedMsg(x)), 3
  {
    hide EncodeItems, Each;
    ghost var base, rank := w.buf, Rank(ReservedMsg(x));
    ghost var s: seq<Item> := [];
    NothingWritten(base);
    s := WriteOpt(w, OptInt(1, NonZero(x.start)), base, s, rank);
    assert s == OptInt(1, NonZero(x.start));
    s := WriteOpt(w, OptInt(2, NonZero(x.end)), base, s, rank);
  }

  method EncodeExtensionRange(x: ExtensionRange, w: W.Writer)
    modifies w
    ensures w.buf == old(w.buf) + EncodeMsg(ExtensionRangeMsg(x))
    decreases Rank(ExtensionRangeMsg(x)), 3
  {
    hide EncodeItems, Each;
    ghost var base, rank := w.buf, Rank(ExtensionRangeMsg(x));
    ghost var s: seq<Item> := [];
    NothingWritten(base);
    s := WriteOpt(w, OptInt(1, NonZero(x.start)), base, s, rank);
    assert s == OptInt(1, NonZero(x.start));
    s := WriteOpt(w, OptInt(2, NonZero(x.end)), base, s, rank);
  }

  method EncodeService(x: ServiceDescriptor, w: W.Writer)
    modifies w
    ensures w.buf == old(w.buf) + EncodeMsg(ServiceMsg(x))
    decreases Rank(ServiceMsg(x)), 3
  {
    hide EncodeItems, Each;
    ghost var base, rank := w.buf, Rank(ServiceMsg(x));
    ghost var s: seq<Item> := [];
    NothingWritten(base);
    s := WriteOpt(w, OptStr(1, x.name), base, s, rank);
    assert s == OptStr(1, x.name);
    s := WriteEach(w, 2, x.methods, OfMethod, base, s, rank);
    s := WriteOpt(w, OptBytes(3, x.options), base, s, rank);
  }

  method EncodeMethod(x: MethodDescriptor, w: W.Writer)
    modifies w
    ensures w.buf == old(w.buf) + EncodeMsg(MethodMsg(x))
    decreases Rank(MethodMsg(x)), 3
  {
    hide EncodeItems, Each;
    ghost var base, rank := w.buf, Rank(MethodMsg(x));
    ghost var s: seq<Item> := [];
    NothingWritten(base);
    s := WriteOpt(w, OptStr(1, x.name), base, s, rank);
    assert s == OptStr(1, x.name);
    s := WriteOpt(w, OptStr(2, x.inputType), base, s, rank);
    s := WriteOpt(w, OptStr(3, x.outputType), base, s, rank);
    s := WriteOpt(w, OptBytes(4, x.options), base, s, rank);
    s := WriteOpt(w, OptBool(5, x.clientStreaming), base, s, rank);
    s := WriteOpt(w, OptBool(6, x.serverStreaming), base, s, rank);
  }

  // ----------------------------------------------------------------------- merge_from

  /** `merge_from`: the loop every implementation shares, with its match on the tag. */
  method MergeFrom(into: Message, r: R.Reader) returns (res: Result<Message, Error>)
    requires r.Valid()
    modifies r
    ensures r.Follows(Merge(into, old(r.At())), res)
    decreases |r.buf| - r.pos, 1
  {
    hide S.ReadTag, MergeField;
    var m := into;
    ghost var start := r.At();
    while true
      invariant r.Valid() && r.pos >= old(r.pos)
      invariant Merge(m, r.At()) == Merge(into, start)
      decreases |r.buf| - r.pos
    {
      var stop := r.IsEmpty();
      if stop { return Success(m); }
      var tag := r.ReadTag();
      if tag.Failure? { return Failure(tag.error); }
      var n := MergeOne(m, tag.value, r);
      if n.Failure? { return Failure(n.error); }
      m := n.value;
    }
  }

  /** The match of `merge_from`: find the arm, read its value, store it. */
  method MergeOne(m: Message, tag: Tag, r: R.Reader) returns (res: Result<Message, Error>)
    requires r.Valid()
    modifies r
    ensures r.Follows(MergeField(m, tag, old(r.At())), res)
    decreases |r.buf| - r.pos, 2
  {
    hide S.SkipInner, ReadArm, Row, Put;
    var arm := ArmOf(KindOf(m), tag);
    if arm == SkipArm {
      var v := r.Skip(tag.wire);
      return if v.Failure? then Failure(v.error) else Success(m);
    }
    var v := ReadValue(arm, r);
    if v.Failure? { return Failure(v.error); }
    res := Success(Put(m, tag.field, v.value));
  }

  method ReadValue(arm: Arm, r: R.Reader) returns (res: Result<Value, Error>)
    requires r.Valid() && arm != SkipArm
    modifies r
    ensures r.Follows(ReadArm(arm, old(r.At())), res)
    decreases |r.buf| - r.pos, 1
  {
    match arm {
      case StrArm =>
        var v := r.ReadString();
        res := if v.Failure? then Failure(v.error) else Success(StrV(v.value));
      case BytesArm =>
        var v := r.ReadLengthDelimited();
        res := if v.Failure? then Failure(v.error) else Success(BytesV(v.value));
      case IntArm =>
        var v := r.ReadVarint();
        res := if v.Failure? then Failure(v.error) else Success(IntV(Signed32(v.value)));
      case BoolArm =>
        var v := r.ReadVarint();
        res := if v.Failure? then Failure(v.error) else Success(BoolV(v.value != 0));
      case MessageArm(k) => res := ReadNested(k, r);
      case FreshArm(k) => res := ReadFresh(k, r);
    }
  }

  /** A nested message, read one level deeper. */
  method ReadNested(k: Kind, r: R.Reader) returns (res: Result<Value, Error>)
    requires r.Valid()
    modifies r
    ensures r.Follows(ReadArm(MessageArm(k), old(r.At())), res)
    decreases |r.buf| - r.pos, 0
  {
    hide Merge, Default;
    var body := r.ReadLengthDelimited();
    if body.Failure? { return Failure(body.error); }
    var sub := r.Nested(body.value);
    if sub.Failure? { return Failure(sub.error); }
    var m := MergeFrom(Default(k), sub.value);
    res := if m.Failure? then Failure(m.error) else Success(MsgV(m.value));
  }

  /** A file of a set, read with a reader of its own. */
  method ReadFresh(k: Kind, r: R.Reader) returns (res: Result<Value, Error>)
    requires r.Valid()
    modifies r
    ensures r.Follows(ReadArm(FreshArm(k), old(r.At())), res)
    decreases |r.buf| - r.pos, 0
  {
    hide Merge, Default;
    var body := r.ReadLengthDelimited();
    if body.Failure? { return Failure(body.error); }
    var sub := new R.Reader(body.value, DEFAULT_LIMITS);
    var m := MergeFrom(Default(k), sub);
    res := if m.Failure? then Failure(m.error) else Success(MsgV(m.value));
  }

  /** `decode_with_limits`, followed by the trailing-bytes test of `Message::decode`, which never fires. */
  method DecodeMessage(k: Kind, input: bytes, limits: DecoderLimits) returns (res: Result<Message, Error>)
    ensures res == Decode(k, input, limits)
    ensures res.Failure? ==> res == Failure(Merge(Default(k), S.Fresh(input, limits)).error)
  {
    hide Merge, Default;
    var r := new R.Reader(input, limits);
    var m := MergeFrom(Default(k), r);
    if m.Failure? { return Failure(m.error); }
    var done := r.IsEmpty();
    if !done { return Failure(TrailingBytes); }
    res := m;
  }

  /** `encode_to_vec` */
  method EncodeToVec(m: Message) returns (out: bytes)
    ensures out == EncodeMsg(m)
  {
    var w := new W.Writer();
    Encode(m, w);
    out := w.buf;
  }
}
