/**
 * The bytes `encode` writes for each descriptor message (types.rs), tag by tag, as descriptor.proto numbers the
 * fields.
 */
module DescriptorBytes {
  import opened Wrappers
  import opened WireBasics
  import opened WireTag
  import opened Utf8
  import opened Descriptor
  import opened DescriptorCodec
  import Varint

  function AsSeq<T>(o: Option<T>): seq<T> {
    if o.None? then [] else [o.value]
  }

  /** The field with this tag, once for every value. */
  function Fields<T>(tag: bytes, xs: seq<T>, f: T -> Value): bytes {
    if |xs| == 0 then [] else tag + EncodeValue(f(xs[0])) + Fields(tag, xs[1..], f)
  }

  function OfBytes(b: bytes): Value { BytesV(b) }
  function OfBool(b: bool): Value { BoolV(b) }
  function OfLabel(l: Label): Value { IntV(l.AsI32()) }
  function OfType(t: FieldType): Value { IntV(t.AsI32()) }
  function OfSource(s: SourceCodeInfo): Value { MsgV(SourceMsg(s)) }

  /** What stands behind a tag: a length and text, bytes or a message, or a varint of a number's 64 bits. */
  lemma ValueBytes(v: Value)
    ensures EncodeValue(v) ==
            match v
            case StrV(s) => Varint.Encode(|s|) + s
            case BytesV(b) => Varint.Encode(|b|) + b
            case IntV(i) => Varint.Encode(if i < 0 then i + 0x1_0000_0000_0000_0000 else i)
            case BoolV(b) => [if b then 1 else 0]
            case MsgV(m) => Varint.Encode(|EncodeMsg(m)|) + EncodeMsg(m)
  {
  }

  lemma ShortVarint(v: nat)
    requires v < 128
    ensures Varint.Encode(v) == [v]
  {
  }

  lemma TagByte(n: u32, wire: WireType)
    requires n < 16 && (wire == Varint64 || wire == LengthDelimited)
    ensures EncodeTag(Tag(n, wire)) == [8 * n + if wire == Varint64 then 0 else 2]
  {
    hide Varint.Encode;
    ShortVarint(Raw(Tag(n, wire)));
  }

  lemma TagSeventeen()
    ensures EncodeTag(Tag(17, Varint64)) == [136, 1]
  {
    assert Varint.Encode(1) == [1];
  }

  lemma {:induction false} EachBytes<T>(n: u32, tag: bytes, wire: WireType, xs: seq<T>, f: T -> Value)
    requires EncodeTag(Tag(n, wire)) == tag && forall x :: WireOf(f(x)) == wire
    ensures EncodeItems(Each(n, xs, f)) == Fields(tag, xs, f)
    decreases |xs|
  {
    hide EncodeTag, EncodeValue;
    if |xs| > 0 {
      EachBytes(n, tag, wire, xs[1..], f);
      var items := Each(n, xs, f);
      assert items[1..] == Each(n, xs[1..], f);
    }
  }

  lemma EachPart<T>(n: u32, tag: bytes, wire: WireType, xs: seq<T>, f: T -> Value)
    requires n < 16 && (wire == Varint64 || wire == LengthDelimited) && forall x :: WireOf(f(x)) == wire
    requires tag == [8 * n + if wire == Varint64 then 0 else 2]
    ensures EncodeItems(Each(n, xs, f)) == Fields(tag, xs, f)
  {
    TagByte(n, wire);
    EachBytes(n, tag, wire, xs, f);
  }

  lemma OnePart<T>(tag: Tag, x: T, f: T -> Value)
    requires WireOf(f(x)) == tag.wire
    ensures EncodeItems([Item(tag.field, f(x))]) == Fields(EncodeTag(tag), [x], f)
  {
    hide EncodeTag, EncodeValue;
    var items := [Item(tag.field, f(x))];
    assert items[1..] == [] && [x][1..] == [];
  }

  lemma TextPart(n: u32, tag: bytes, s: Option<Str>)
    requires n < 16 && tag == [8 * n + 2]
    ensures EncodeItems(OptStr(n, s)) == Fields(tag, AsSeq(s), OfStr)
  {
    hide EncodeTag, EncodeValue;
    TagByte(n, LengthDelimited);
    if s.Some? { OnePart(Tag(n, LengthDelimited), s.value, OfStr); }
  }

  lemma BytesPart(n: u32, tag: bytes, b: Option<bytes>)
    requires n < 16 && tag == [8 * n + 2]
    ensures EncodeItems(OptBytes(n, b)) == Fields(tag, AsSeq(b), OfBytes)
  {
    hide EncodeTag, EncodeValue;
    TagByte(n, LengthDelimited);
    if b.Some? { OnePart(Tag(n, LengthDelimited), b.value, OfBytes); }
  }

  lemma IntPart(n: u32, tag: bytes, i: Option<i32>)
    requires n < 16 && tag == [8 * n]
    ensures EncodeItems(OptInt(n, i)) == Fields(tag, AsSeq(i), OfInt)
  {
    hide EncodeTag, EncodeValue;
    TagByte(n, Varint64);
    if i.Some? { OnePart(Tag(n, Varint64), i.value, OfInt); }
  }

  lemma RangePart(n: u32, tag: bytes, i: i32)
    requires n < 16 && tag == [8 * n]
    ensures EncodeItems(OptInt(n, NonZero(i))) == Fields(tag, if i == 0 then [] else [i], OfInt)
  {
    hide EncodeTag, EncodeValue;
    IntPart(n, tag, NonZero(i));
  }

  lemma BoolPart(n: u32, tag: bytes, b: Option<bool>)
    requires (n < 16 && tag == [8 * n]) || (n == 17 && tag == [136, 1])
    ensures EncodeItems(OptBool(n, b)) == Fields(tag, AsSeq(b), OfBool)
  {
    hide EncodeTag, EncodeValue;
    if n < 16 { TagByte(n, Varint64); } else { TagSeventeen(); }
    if b.Some? { OnePart(Tag(n, Varint64), b.value, OfBool); }
  }

  lemma LabelPart(l: Option<Label>)
    ensures EncodeItems(LabelItems(l)) == Fields([32], AsSeq(l), OfLabel)
  {
    hide EncodeTag, EncodeValue;
    TagByte(4, Varint64);
    if l.Some? { OnePart(Tag(4, Varint64), l.value, OfLabel); }
  }

  lemma TypePart(t: Option<FieldType>)
    ensures EncodeItems(TypeItems(t)) == Fields([40], AsSeq(t), OfType)
  {
    hide EncodeTag, EncodeValue;
    TagByte(5, Varint64);
    if t.Some? { OnePart(Tag(5, Varint64), t.value, OfType); }
  }

  lemma SourcePart(s: Option<SourceCodeInfo>)
    ensures EncodeItems(SourceItems(s)) == Fields([74], AsSeq(s), OfSource)
  {
    hide EncodeTag, EncodeValue;
    TagByte(9, LengthDelimited);
    if s.Some? { OnePart(Tag(9, LengthDelimited), s.value, OfSource); }
  }

  lemma Grow(s: seq<Item>, more: seq<Item>) returns (r: seq<Item>)
    ensures r == s + more && EncodeItems(r) == EncodeItems(s) + EncodeItems(more)
  {
    EncodeItemsConcat(s, more);
    r := s + more;
  }

  lemma Unfold(m: Message)
    ensures EncodeMsg(m) == EncodeItems(Items(m))
  {
  }

  // ------------------------------------------------------------------------- type by type

  /** A set of files. */
  lemma SetBytes(x: FileDescriptorSet)
    ensures EncodeMsg(SetMsg(x)) ==
            Fields([10], x.file, OfFile)
  {
    hide EncodeItems, Each, EncodeTag, EncodeValue, Fields, AsSeq, NonZero, OptStr, OptBytes, OptInt, OptBool;
    hide LabelItems, TypeItems, SourceItems;
    EachPart(1, [10], LengthDelimited, x.file, OfFile);
    Unfold(SetMsg(x));
  }

  /** A file. */
  lemma FileBytes(x: FileDescriptor)
    ensures EncodeMsg(FileMsg(x)) ==
            Fields([10], AsSeq(x.name), OfStr) + Fields([18], AsSeq(x.package), OfStr)
            + Fields([26], x.dependency, OfStr) + Fields([80], x.publicDependency, OfInt)
            + Fields([88], x.weakDependency, OfInt) + Fields([34], x.messageType, OfDescriptor)
            + Fields([42], x.enumType, OfEnum) + Fields([50], x.service, OfService)
            + Fields([58], x.extension, OfField) + Fields([66], AsSeq(x.options), OfBytes)
            + Fields([74], AsSeq(x.sourceCodeInfo), OfSource) + Fields([98], AsSeq(x.syntax), OfStr)
  {
    hide EncodeItems, Each, EncodeTag, EncodeValue, Fields, AsSeq, NonZero, OptStr, OptBytes, OptInt, OptBool;
    hide LabelItems, TypeItems, SourceItems;
    TextPart(1, [10], x.name);
    TextPart(2, [18], x.package);
    EachPart(3, [26], LengthDelimited, x.dependency, OfStr);
    EachPart(10, [80], Varint64, x.publicDependency, OfInt);
    EachPart(11, [88], Varint64, x.weakDependency, OfInt);
    EachPart(4, [34], LengthDelimited, x.messageType, OfDescriptor);
    EachPart(5, [42], LengthDelimited, x.enumType, OfEnum);
    EachPart(6, [50], LengthDelimited, x.service, OfService);
    EachPart(7, [58], LengthDelimited, x.extension, OfField);
    BytesPart(8, [66], x.options);
    SourcePart(x.sourceCodeInfo);
    TextPart(12, [98], x.syntax);
    var s := OptStr(1, x.name);
    s := Grow(s, OptStr(2, x.package));
    s := Grow(s, Each(3, x.dependency, OfStr));
    s := Grow(s, Each(10, x.publicDependency, OfInt));
    s := Grow(s, Each(11, x.weakDependency, OfInt));
    s := Grow(s, Each(4, x.messageType, OfDescriptor));
    s := Grow(s, Each(5, x.enumType, OfEnum));
    s := Grow(s, Each(6, x.service, OfService));
    s := Grow(s, Each(7, x.extension, OfField));
    s := Grow(s, OptBytes(8, x.options));
    s := Grow(s, SourceItems(x.sourceCodeInfo));
    s := Grow(s, OptStr(12, x.syntax));
    Unfold(FileMsg(x));
  }

  /** Source information. */
  lemma SourceBytes(x: SourceCodeInfo)
    ensures EncodeMsg(SourceMsg(x)) ==
            Fields([10], x.locations, OfLocation)
  {
    hide EncodeItems, Each, EncodeTag, EncodeValue, Fields, AsSeq, NonZero, OptStr, OptBytes, OptInt, OptBool;
    hide LabelItems, TypeItems, SourceItems;
    EachPart(1, [10], LengthDelimited, x.locations, OfLocation);
    Unfold(SourceMsg(x));
  }

  /** A location. */
  lemma LocationBytes(x: Location)
    ensures EncodeMsg(LocationMsg(x)) ==
            Fields([8], x.path, OfInt) + Fields([16], x.span, OfInt) + Fields([26], AsSeq(x.leadingComments), OfStr)
            + Fields([34], AsSeq(x.trailingComments), OfStr) + Fields([50], x.leadingDetachedComments, OfStr)
  {
    hide EncodeItems, Each, EncodeTag, EncodeValue, Fields, AsSeq, NonZero, OptStr, OptBytes, OptInt, OptBool;
    hide LabelItems, TypeItems, SourceItems;
    EachPart(1, [8], Varint64, x.path, OfInt);
    EachPart(2, [16], Varint64, x.span, OfInt);
    TextPart(3, [26], x.leadingComments);
    TextPart(4, [34], x.trailingComments);
    EachPart(6, [50], LengthDelimited, x.leadingDetachedComments, OfStr);
    var s := Each(1, x.path, OfInt);
    s := Grow(s, Each(2, x.span, OfInt));
    s := Grow(s, OptStr(3, x.leadingComments));
    s := Grow(s, OptStr(4, x.trailingComments));
    s := Grow(s, Each(6, x.leadingDetachedComments, OfStr));
    Unfold(LocationMsg(x));
  }

  /** A message, its nested messages framed by their lengths. */
  lemma MessageBytes(x: MessageDescriptor)
    ensures EncodeMsg(DescriptorMsg(x)) ==
            Fields([10], AsSeq(x.name), OfStr) + Fields([18], x.field, OfField) + Fields([50], x.extension, OfField)
            + Fields([26], x.nestedType, OfDescriptor) + Fields([34], x.enumType, OfEnum)
            + Fields([42], x.extensionRange, OfExtensionRange) + Fields([66], x.oneofDecl, OfOneof)
            + Fields([58], AsSeq(x.options), OfBytes) + Fields([74], x.reservedRange, OfReserved)
            + Fields([82], x.reservedName, OfStr)
  {
    hide EncodeItems, Each, EncodeTag, EncodeValue, Fields, AsSeq, NonZero, OptStr, OptBytes, OptInt, OptBool;
    hide LabelItems, TypeItems, SourceItems;
    TextPart(1, [10], x.name);
    EachPart(2, [18], LengthDelimited, x.field, OfField);
    EachPart(6, [50], LengthDelimited, x.extension, OfField);
    EachPart(3, [26], LengthDelimited, x.nestedType, OfDescriptor);
    EachPart(4, [34], LengthDelimited, x.enumType, OfEnum);
    EachPart(5, [42], LengthDelimited, x.extensionRange, OfExtensionRange);
    EachPart(8, [66], LengthDelimited, x.oneofDecl, OfOneof);
    BytesPart(7, [58], x.options);
    EachPart(9, [74], LengthDelimited, x.reservedRange, OfReserved);
    EachPart(10, [82], LengthDelimited, x.reservedName, OfStr);
    var s := OptStr(1, x.name);
    s := Grow(s, Each(2, x.field, OfField));
    s := Grow(s, Each(6, x.extension, OfField));
    s := Grow(s, Each(3, x.nestedType, OfDescriptor));
    s := Grow(s, Each(4, x.enumType, OfEnum));
    s := Grow(s, Each(5, x.extensionRange, OfExtensionRange));
    s := Grow(s, Each(8, x.oneofDecl, OfOneof));
    s := Grow(s, OptBytes(7, x.options));
    s := Grow(s, Each(9, x.reservedRange, OfReserved));
    s := Grow(s, Each(10, x.reservedName, OfStr));
    Unfold(DescriptorMsg(x));
  }

  /** A field. */
  lemma FieldBytes(x: FieldDescriptor)
    ensures EncodeMsg(FieldMsg(x)) ==
            Fields([10], AsSeq(x.name), OfStr) + Fields([18], AsSeq(x.extendee), OfStr)
            + Fields([24], AsSeq(x.number), OfInt) + Fields([32], AsSeq(x.fieldLabel), OfLabel)
            + Fields([40], AsSeq(x.ty), OfType) + Fields([50], AsSeq(x.typeName), OfStr)
            + Fields([58], AsSeq(x.defaultValue), OfStr) + Fields([72], AsSeq(x.oneofIndex), OfInt)
            + Fields([82], AsSeq(x.jsonName), OfStr) + Fields([66], AsSeq(x.options), OfBytes)
            + Fields([136, 1], AsSeq(x.proto3Optional), OfBool)
  {
    hide EncodeItems, Each, EncodeTag, EncodeValue, Fields, AsSeq, NonZero, OptStr, OptBytes, OptInt, OptBool;
    hide LabelItems, TypeItems, SourceItems;
    TextPart(1, [10], x.name);
    TextPart(2, [18], x.extendee);
    IntPart(3, [24], x.number);
    LabelPart(x.fieldLabel);
    TypePart(x.ty);
    TextPart(6, [50], x.typeName);
    TextPart(7, [58], x.defaultValue);
    IntPart(9, [72], x.oneofIndex);
    TextPart(10, [82], x.jsonName);
    BytesPart(8, [66], x.options);
    BoolPart(17, [136, 1], x.proto3Optional);
    var s := OptStr(1, x.name);
    s := Grow(s, OptStr(2, x.extendee));
    s := Grow(s, OptInt(3, x.number));
    s := Grow(s, LabelItems(x.fieldLabel));
    s := Grow(s, TypeItems(x.ty));
    s := Grow(s, OptStr(6, x.typeName));
    s := Grow(s, OptStr(7, x.defaultValue));
    s := Grow(s, OptInt(9, x.oneofIndex));
    s := Grow(s, OptStr(10, x.jsonName));
    s := Grow(s, OptBytes(8, x.options));
    s := Grow(s, OptBool(17, x.proto3Optional));
    Unfold(FieldMsg(x));
  }

  /** An enum. */
  lemma EnumBytes(x: EnumDescriptor)
    ensures EncodeMsg(EnumMsg(x)) ==
            Fields([10], AsSeq(x.name), OfStr) + Fields([18], x.value, OfEnumValue)
            + Fields([26], AsSeq(x.options), OfBytes) + Fields([34], x.reservedRange, OfReserved)
            + Fields([42], x.reservedName, OfStr)
  {
    hide EncodeItems, Each, EncodeTag, EncodeValue, Fields, AsSeq, NonZero, OptStr, OptBytes, OptInt, OptBool;
    hide LabelItems, TypeItems, SourceItems;
    TextPart(1, [10], x.name);
    EachPart(2, [18], LengthDelimited, x.value, OfEnumValue);
    BytesPart(3, [26], x.options);
    EachPart(4, [34], LengthDelimited, x.reservedRange, OfReserved);
    EachPart(5, [42], LengthDelimited, x.reservedName, OfStr);
    var s := OptStr(1, x.name);
    s := Grow(s, Each(2, x.value, OfEnumValue));
    s := Grow(s, OptBytes(3, x.options));
    s := Grow(s, Each(4, x.reservedRange, OfReserved));
    s := Grow(s, Each(5, x.reservedName, OfStr));
    Unfold(EnumMsg(x));
  }

  /** An enum value. */
  lemma EnumValueBytes(x: EnumValueDescriptor)
    ensures EncodeMsg(EnumValueMsg(x)) ==
            Fields([10], AsSeq(x.name), OfStr) + Fields([16], AsSeq(x.number), OfInt)
            + Fields([26], AsSeq(x.options), OfBytes)
  {
    hide EncodeItems, Each, EncodeTag, EncodeValue, Fields, AsSeq, NonZero, OptStr, OptBytes, OptInt, OptBool;
    hide LabelItems, TypeItems, SourceItems;
    TextPart(1, [10], x.name);
    IntPart(2, [16], x.number);
    BytesPart(3, [26], x.options);
    var s := OptStr(1, x.name);
    s := Grow(s, OptInt(2, x.number));
    s := Grow(s, OptBytes(3, x.options));
    Unfold(EnumValueMsg(x));
  }

  /** A oneof. */
  lemma OneofBytes(x: OneofDescriptor)
    ensures EncodeMsg(OneofMsg(x)) ==
            Fields([10], AsSeq(x.name), OfStr) + Fields([18], AsSeq(x.options), OfBytes)
  {
    hide EncodeItems, Each, EncodeTag, EncodeValue, Fields, AsSeq, NonZero, OptStr, OptBytes, OptInt, OptBool;
    hide LabelItems, TypeItems, SourceItems;
    TextPart(1, [10], x.name);
    BytesPart(2, [18], x.options);
    var s := OptStr(1, x.name);
    s := Grow(s, OptBytes(2, x.options));
    Unfold(OneofMsg(x));
  }

  /** A reserved range, without the ends that are 0. */
  lemma ReservedBytes(x: ReservedRange)
    ensures EncodeMsg(ReservedMsg(x)) ==
            Fields([8], if x.start == 0 then [] else [x.start], OfInt)
            + Fields([16], if x.end == 0 then [] else [x.end], OfInt)
  {
    hide EncodeItems, Each, EncodeTag, EncodeValue, Fields, AsSeq, NonZero, OptStr, OptBytes, OptInt, OptBool;
    hide LabelItems, TypeItems, SourceItems;
    RangePart(1, [8], x.start);
    RangePart(2, [16], x.end);
    var s := OptInt(1, NonZero(x.start));
    s := Grow(s, OptInt(2, NonZero(x.end)));
    Unfold(ReservedMsg(x));
  }

  /** An extension range. */
  lemma ExtensionRangeBytes(x: ExtensionRange)
    ensures EncodeMsg(ExtensionRangeMsg(x)) ==
            Fields([8], if x.start == 0 then [] else [x.start], OfInt)
            + Fields([16], if x.end == 0 then [] else [x.end], OfInt)
  {
    hide EncodeItems, Each, EncodeTag, EncodeValue, Fields, AsSeq, NonZero, OptStr, OptBytes, OptInt, OptBool;
    hide LabelItems, TypeItems, SourceItems;
    RangePart(1, [8], x.start);
    RangePart(2, [16], x.end);
    var s := OptInt(1, NonZero(x.start));
    s := Grow(s, OptInt(2, NonZero(x.end)));
    Unfold(ExtensionRangeMsg(x));
  }

  /** A service. */
  lemma ServiceBytes(x: ServiceDescriptor)
    ensures EncodeMsg(ServiceMsg(x)) ==
            Fields([10], AsSeq(x.name), OfStr) + Fields([18], x.methods, OfMethod)
            + Fields([26], AsSeq(x.options), OfBytes)
  {
    hide EncodeItems, Each, EncodeTag, EncodeValue, Fields, AsSeq, NonZero, OptStr, OptBytes, OptInt, OptBool;
    hide LabelItems, TypeItems, SourceItems;
    TextPart(1, [10], x.name);
    EachPart(2, [18], LengthDelimited, x.methods, OfMethod);
    BytesPart(3, [26], x.options);
    var s := OptStr(1, x.name);
    s := Grow(s, Each(2, x.methods, OfMethod));
    s := Grow(s, OptBytes(3, x.options));
    Unfold(ServiceMsg(x));
  }

  /** A method. */
  lemma MethodBytes(x: MethodDescriptor)
    ensures EncodeMsg(MethodMsg(x)) ==
            Fields([10], AsSeq(x.name), OfStr) + Fields([18], AsSeq(x.inputType), OfStr)
            + Fields([26], AsSeq(x.outputType), OfStr) + Fields([34], AsSeq(x.options), OfBytes)
            + Fields([40], AsSeq(x.clientStreaming), OfBool) + Fields([48], AsSeq(x.serverStreaming), OfBool)
  {
    hide EncodeItems, Each, EncodeTag, EncodeValue, Fields, AsSeq, NonZero, OptStr, OptBytes, OptInt, OptBool;
    hide LabelItems, TypeItems, SourceItems;
    TextPart(1, [10], x.name);
    TextPart(2, [18], x.inputType);
    TextPart(3, [26], x.outputType);
    BytesPart(4, [34], x.options);
    BoolPart(5, [40], x.clientStreaming);
    BoolPart(6, [48], x.serverStreaming);
    var s := OptStr(1, x.name);
    s := Grow(s, OptStr(2, x.inputType));
    s := Grow(s, OptStr(3, x.outputType));
    s := Grow(s, OptBytes(4, x.options));
    s := Grow(s, OptBool(5, x.clientStreaming));
    s := Grow(s, OptBool(6, x.serverStreaming));
    Unfold(MethodMsg(x));
  }
}
