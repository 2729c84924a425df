/**
 * Descriptor messages (types.rs): the records, the field table of each `merge_from`, what a decoded field does to a
 * record, and the fields `encode` writes, in its order.
 */
module Descriptor {
  import opened Wrappers
  import opened WireBasics
  import opened WireTag
  import opened Utf8

  datatype Label = Optional | Required | Repeated
  {
    function AsI32(): (n: i32)
      ensures LabelFromI32(n) == Some(this)
    {
      match this
      case Optional => 1
      case Required => 2
      case Repeated => 3
    }
  }

  function LabelFromI32(n: i32): Option<Label> {
    match n
    case 1 => Some(Optional)
    case 2 => Some(Required)
    case 3 => Some(Repeated)
    case _ => None
  }

  datatype FieldType =
    | Double | Float | Int64 | Uint64 | Int32 | Fixed64Type | Fixed32Type | Bool | String | Group | MessageType | Bytes
    | Uint32 | Enum | Sfixed32 | Sfixed64 | Sint32 | Sint64
  {
    function AsI32(): (n: i32)
      ensures FieldTypeFromI32(n) == Some(this)
    {
      match this
      case Double => 1
      case Float => 2
      case Int64 => 3
      case Uint64 => 4
      case Int32 => 5
      case Fixed64Type => 6
      case Fixed32Type => 7
      case Bool => 8
      case String => 9
      case Group => 10
      case MessageType => 11
      case Bytes => 12
      case Uint32 => 13
      case Enum => 14
      case Sfixed32 => 15
      case Sfixed64 => 16
      case Sint32 => 17
      case Sint64 => 18
    }
  }

  function FieldTypeFromI32(n: i32): Option<FieldType> {
    match n
    case 1 => Some(Double)
    case 2 => Some(Float)
    case 3 => Some(Int64)
    case 4 => Some(Uint64)
    case 5 => Some(Int32)
    case 6 => Some(Fixed64Type)
    case 7 => Some(Fixed32Type)
    case 8 => Some(Bool)
    case 9 => Some(String)
    case 10 => Some(Group)
    case 11 => Some(MessageType)
    case 12 => Some(Bytes)
    case 13 => Some(Uint32)
    case 14 => Some(Enum)
    case 15 => Some(Sfixed32)
    case 16 => Some(Sfixed64)
    case 17 => Some(Sint32)
    case 18 => Some(Sint64)
    case _ => None
  }

  // ------------------------------------------------------------------- the records

  datatype Location = Location(
    path: seq<i32>, span: seq<i32>, leadingComments: Option<Str>, trailingComments: Option<Str>,
    leadingDetachedComments: seq<Str>)

  datatype SourceCodeInfo = SourceCodeInfo(locations: seq<Location>)

  datatype ReservedRange = ReservedRange(start: i32, end: i32)

  datatype ExtensionRange = ExtensionRange(start: i32, end: i32)

  datatype FieldDescriptor = FieldDescriptor(
    name: Option<Str>, number: Option<i32>, fieldLabel: Option<Label>, ty: Option<FieldType>, typeName: Option<Str>,
    extendee: Option<Str>, defaultValue: Option<Str>, oneofIndex: Option<i32>, jsonName: Option<Str>,
    options: Option<bytes>, proto3Optional: Option<bool>)

  datatype EnumValueDescriptor = EnumValueDescriptor(
    name: Option<Str>, number: Option<i32>, options: Option<bytes>)

  datatype EnumDescriptor = EnumDescriptor(
    name: Option<Str>, value: seq<EnumValueDescriptor>, options: Option<bytes>, reservedRange: seq<ReservedRange>,
    reservedName: seq<Str>)

  datatype OneofDescriptor = OneofDescriptor(name: Option<Str>, options: Option<bytes>)

  datatype MessageDescriptor = MessageDescriptor(
    name: Option<Str>, field: seq<FieldDescriptor>, extension: seq<FieldDescriptor>,
    nestedType: seq<MessageDescriptor>, enumType: seq<EnumDescriptor>, extensionRange: seq<ExtensionRange>,
    oneofDecl: seq<OneofDescriptor>, options: Option<bytes>, reservedRange: seq<ReservedRange>,
    reservedName: seq<Str>)

  datatype MethodDescriptor = MethodDescriptor(
    name: Option<Str>, inputType: Option<Str>, outputType: Option<Str>, options: Option<bytes>,
    clientStreaming: Option<bool>, serverStreaming: Option<bool>)

  datatype ServiceDescriptor = ServiceDescriptor(
    name: Option<Str>, methods: seq<MethodDescriptor>, options: Option<bytes>)

  datatype FileDescriptor = FileDescriptor(
    name: Option<Str>, package: Option<Str>, dependency: seq<Str>, publicDependency: seq<i32>,
    weakDependency: seq<i32>, messageType: seq<MessageDescriptor>, enumType: seq<EnumDescriptor>,
    service: seq<ServiceDescriptor>, extension: seq<FieldDescriptor>, options: Option<bytes>,
    sourceCodeInfo: Option<SourceCodeInfo>, syntax: Option<Str>)

  datatype FileDescriptorSet = FileDescriptorSet(file: seq<FileDescriptor>)

  /** The implementors of the `Message` trait. */
  datatype Message =
    | SetMsg(set_: FileDescriptorSet)
    | FileMsg(file: FileDescriptor)
    | SourceMsg(source: SourceCodeInfo)
    | LocationMsg(location: Location)
    | DescriptorMsg(d: MessageDescriptor)
    | FieldMsg(f: FieldDescriptor)
    | EnumMsg(e: EnumDescriptor)
    | EnumValueMsg(ev: EnumValueDescriptor)
    | OneofMsg(o: OneofDescriptor)
    | ReservedMsg(rr: ReservedRange)
    | ExtensionRangeMsg(er: ExtensionRange)
    | ServiceMsg(s: ServiceDescriptor)
    | MethodMsg(m: MethodDescriptor)

  datatype Kind =
    | SetKind | FileKind | SourceKind | LocationKind | DescriptorKind | FieldKind | EnumKind | EnumValueKind
    | OneofKind | ReservedKind | ExtensionRangeKind | ServiceKind | MethodKind

  function KindOf(m: Message): Kind {
    match m
    case SetMsg(_) => SetKind
    case FileMsg(_) => FileKind
    case SourceMsg(_) => SourceKind
    case LocationMsg(_) => LocationKind
    case DescriptorMsg(_) => DescriptorKind
    case FieldMsg(_) => FieldKind
    case EnumMsg(_) => EnumKind
    case EnumValueMsg(_) => EnumValueKind
    case OneofMsg(_) => OneofKind
    case ReservedMsg(_) => ReservedKind
    case ExtensionRangeMsg(_) => ExtensionRangeKind
    case ServiceMsg(_) => ServiceKind
    case MethodMsg(_) => MethodKind
  }

  /** `Default::default()` */
  function Default(k: Kind): (m: Message)
    ensures KindOf(m) == k
  {
    match k
    case SetKind => SetMsg(FileDescriptorSet([]))
    case FileKind => FileMsg(FileDescriptor(None, None, [], [], [], [], [], [], [], None, None, None))
    case SourceKind => SourceMsg(SourceCodeInfo([]))
    case LocationKind => LocationMsg(Location([], [], None, None, []))
    case DescriptorKind => DescriptorMsg(MessageDescriptor(None, [], [], [], [], [], [], None, [], []))
    case FieldKind => FieldMsg(FieldDescriptor(None, None, None, None, None, None, None, None, None, None, None))
    case EnumKind => EnumMsg(EnumDescriptor(None, [], None, [], []))
    case EnumValueKind => EnumValueMsg(EnumValueDescriptor(None, None, None))
    case OneofKind => OneofMsg(OneofDescriptor(None, None))
    case ReservedKind => ReservedMsg(ReservedRange(0, 0))
    case ExtensionRangeKind => ExtensionRangeMsg(ExtensionRange(0, 0))
    case ServiceKind => ServiceMsg(ServiceDescriptor(None, [], None))
    case MethodKind => MethodMsg(MethodDescriptor(None, None, None, None, None, None))
  }

  // --------------------------------------------------------------- the field tables

  /**
   * What the arm of a `merge_from` match does with the value: read a string, bytes, an `int32`, a `bool`, or a
   * nested message (with a nested reader, or with a fresh default one), or skip it.
   */
  datatype Arm = StrArm | BytesArm | IntArm | BoolArm | MessageArm(kind: Kind) | FreshArm(kind: Kind) | SkipArm

  /** The arm for field `n` when its wire type is the expected one. */
  function Row(k: Kind, n: u32): Arm {
    match k
    case SetKind => if n == 1 then FreshArm(FileKind) else SkipArm
    case FileKind =>
      (match n
       case 1 => StrArm
       case 2 => StrArm
       case 3 => StrArm
       case 4 => MessageArm(DescriptorKind)
       case 5 => MessageArm(EnumKind)
       case 6 => MessageArm(ServiceKind)
       case 7 => MessageArm(FieldKind)
       case 8 => BytesArm
       case 9 => MessageArm(SourceKind)
       case 10 => IntArm
       case 11 => IntArm
       case 12 => StrArm
       case _ => SkipArm)
    case SourceKind => if n == 1 then MessageArm(LocationKind) else SkipArm
    case LocationKind =>
      (match n
       case 1 => IntArm
       case 2 => IntArm
       case 3 => StrArm
       case 4 => StrArm
       case 6 => StrArm
       case _ => SkipArm)
    case DescriptorKind =>
      (match n
       case 1 => StrArm
       case 2 => MessageArm(FieldKind)
       case 3 => MessageArm(DescriptorKind)
       case 4 => MessageArm(EnumKind)
       case 5 => MessageArm(ExtensionRangeKind)
       case 6 => MessageArm(FieldKind)
       case 7 => BytesArm
       case 8 => MessageArm(OneofKind)
       case 9 => MessageArm(ReservedKind)
       case 10 => StrArm
       case _ => SkipArm)
    case FieldKind =>
      (match n
       case 1 => StrArm
       case 2 => StrArm
       case 3 => IntArm
       case 4 => IntArm
       case 5 => IntArm
       case 6 => StrArm
       case 7 => StrArm
       case 8 => BytesArm
       case 9 => IntArm
       case 10 => StrArm
       case 17 => BoolArm
       case _ => SkipArm)
    case EnumKind =>
      (match n
       case 1 => StrArm
       case 2 => MessageArm(EnumValueKind)
       case 3 => BytesArm
       case 4 => MessageArm(ReservedKind)
       case 5 => StrArm
       case _ => SkipArm)
    case EnumValueKind =>
      (match n
       case 1 => StrArm
       case 2 => IntArm
       case 3 => BytesArm
       case _ => SkipArm)
    case OneofKind =>
      (match n
       case 1 => StrArm
       case 2 => BytesArm
       case _ => SkipArm)
    case ReservedKind => if n == 1 || n == 2 then IntArm else SkipArm
    case ExtensionRangeKind => if n == 1 || n == 2 then IntArm else SkipArm
    case ServiceKind =>
      (match n
       case 1 => StrArm
       case 2 => MessageArm(MethodKind)
       case 3 => BytesArm
       case _ => SkipArm)
    case MethodKind =>
      (match n
       case 1 => StrArm
       case 2 => StrArm
       case 3 => StrArm
       case 4 => BytesArm
       case 5 => BoolArm
       case 6 => BoolArm
       case _ => SkipArm)
  }

  function WireOfArm(a: Arm): WireType {
    match a
    case IntArm => Varint64
    case BoolArm => Varint64
    case _ => LengthDelimited
  }

  /** The match on `(field_number, wire_type)`: a known number with another wire type is skipped like an unknown one. */
  function ArmOf(k: Kind, tag: Tag): Arm {
    if WireOfArm(Row(k, tag.field)) == tag.wire then Row(k, tag.field) else SkipArm
  }

  // ------------------------------------------------------------------ decoded fields

  datatype Value = StrV(str: Str) | BytesV(bs: bytes) | IntV(i: i32) | BoolV(b: bool) | MsgV(msg: Message)

  datatype Item = Item(field: u32, value: Value)

  /** `v` is what the arm produces. */
  predicate Produces(a: Arm, v: Value) {
    match a
    case StrArm => v.StrV?
    case BytesArm => v.BytesV?
    case IntArm => v.IntV?
    case BoolArm => v.BoolV?
    case MessageArm(k) => v.MsgV? && KindOf(v.msg) == k
    case FreshArm(k) => v.MsgV? && KindOf(v.msg) == k
    case SkipArm => false
  }

  /** The assignment or push an arm of `merge_from` performs. */
  function Put(m: Message, n: u32, v: Value): (r: Message)
    requires Produces(Row(KindOf(m), n), v)
    ensures KindOf(r) == KindOf(m)
  {
    match m
    case SetMsg(x) => SetMsg(FileDescriptorSet(x.file + [v.msg.file]))
    case FileMsg(x) => FileMsg(PutFile(x, n, v))
    case SourceMsg(x) => SourceMsg(SourceCodeInfo(x.locations + [v.msg.location]))
    case LocationMsg(x) => LocationMsg(PutLocation(x, n, v))
    case DescriptorMsg(x) => DescriptorMsg(PutDescriptor(x, n, v))
    case FieldMsg(x) => FieldMsg(PutField(x, n, v))
    case EnumMsg(x) => EnumMsg(PutEnum(x, n, v))
    case EnumValueMsg(x) =>
      EnumValueMsg(if n == 1 then x.(name := Some(v.str)) else if n == 2 then x.(number := Some(v.i))
                   else x.(options := Some(v.bs)))
    case OneofMsg(x) => OneofMsg(if n == 1 then x.(name := Some(v.str)) else x.(options := Some(v.bs)))
    case ReservedMsg(x) => ReservedMsg(if n == 1 then x.(start := v.i) else x.(end := v.i))
    case ExtensionRangeMsg(x) => ExtensionRangeMsg(if n == 1 then x.(start := v.i) else x.(end := v.i))
    case ServiceMsg(x) =>
      ServiceMsg(if n == 1 then x.(name := Some(v.str)) else if n == 2 then x.(methods := x.methods + [v.msg.m])
                 else x.(options := Some(v.bs)))
    case MethodMsg(x) => MethodMsg(PutMethod(x, n, v))
  }

  function PutFile(x: FileDescriptor, n: u32, v: Value): FileDescriptor
    requires Produces(Row(FileKind, n), v)
  {
    match n
    case 1 => x.(name := Some(v.str))
    case 2 => x.(package := Some(v.str))
    case 3 => x.(dependency := x.dependency + [v.str])
    case 4 => x.(messageType := x.messageType + [v.msg.d])
    case 5 => x.(enumType := x.enumType + [v.msg.e])
    case 6 => x.(service := x.service + [v.msg.s])
    case 7 => x.(extension := x.extension + [v.msg.f])
    case 8 => x.(options := Some(v.bs))
    case 9 => x.(sourceCodeInfo := Some(v.msg.source))
    case 10 => x.(publicDependency := x.publicDependency + [v.i])
    case 11 => x.(weakDependency := x.weakDependency + [v.i])
    case 12 => x.(syntax := Some(v.str))
  }

  function PutLocation(x: Location, n: u32, v: Value): Location
    requires Produces(Row(LocationKind, n), v)
  {
    match n
    case 1 => x.(path := x.path + [v.i])
    case 2 => x.(span := x.span + [v.i])
    case 3 => x.(leadingComments := Some(v.str))
    case 4 => x.(trailingComments := Some(v.str))
    case 6 => x.(leadingDetachedComments := x.leadingDetachedComments + [v.str])
  }

  function PutDescriptor(x: MessageDescriptor, n: u32, v: Value): MessageDescriptor
    requires Produces(Row(DescriptorKind, n), v)
  {
    match n
    case 1 => x.(name := Some(v.str))
    case 2 => x.(field := x.field + [v.msg.f])
    case 3 => x.(nestedType := x.nestedType + [v.msg.d])
    case 4 => x.(enumType := x.enumType + [v.msg.e])
    case 5 => x.(extensionRange := x.extensionRange + [v.msg.er])
    case 6 => x.(extension := x.extension + [v.msg.f])
    case 7 => x.(options := Some(v.bs))
    case 8 => x.(oneofDecl := x.oneofDecl + [v.msg.o])
    case 9 => x.(reservedRange := x.reservedRange + [v.msg.rr])
    case 10 => x.(reservedName := x.reservedName + [v.str])
  }

  /** `label` and `type` go through `from_i32`, so an unknown number clears them. */
  function PutField(x: FieldDescriptor, n: u32, v: Value): FieldDescriptor
    requires Produces(Row(FieldKind, n), v)
  {
    match n
    case 1 => x.(name := Some(v.str))
    case 2 => x.(extendee := Some(v.str))
    case 3 => x.(number := Some(v.i))
    case 4 => x.(fieldLabel := LabelFromI32(v.i))
    case 5 => x.(ty := FieldTypeFromI32(v.i))
    case 6 => x.(typeName := Some(v.str))
    case 7 => x.(defaultValue := Some(v.str))
    case 8 => x.(options := Some(v.bs))
    case 9 => x.(oneofIndex := Some(v.i))
    case 10 => x.(jsonName := Some(v.str))
    case 17 => x.(proto3Optional := Some(v.b))
  }

  function PutEnum(x: EnumDescriptor, n: u32, v: Value): EnumDescriptor
    requires Produces(Row(EnumKind, n), v)
  {
    match n
    case 1 => x.(name := Some(v.str))
    case 2 => x.(value := x.value + [v.msg.ev])
    case 3 => x.(options := Some(v.bs))
    case 4 => x.(reservedRange := x.reservedRange + [v.msg.rr])
    case 5 => x.(reservedName := x.reservedName + [v.str])
  }

  function PutMethod(x: MethodDescriptor, n: u32, v: Value): MethodDescriptor
    requires Produces(Row(MethodKind, n), v)
  {
    match n
    case 1 => x.(name := Some(v.str))
    case 2 => x.(inputType := Some(v.str))
    case 3 => x.(outputType := Some(v.str))
    case 4 => x.(options := Some(v.bs))
    case 5 => x.(clientStreaming := Some(v.b))
    case 6 => x.(serverStreaming := Some(v.b))
  }

  // ------------------------------------------------------------------ encoded fields

  function OptStr(n: u32, s: Option<Str>): seq<Item> {
    if s.None? then [] else [Item(n, StrV(s.value))]
  }

  function OptBytes(n: u32, s: Option<bytes>): seq<Item> {
    if s.None? then [] else [Item(n, BytesV(s.value))]
  }

  function OptInt(n: u32, i: Option<i32>): seq<Item> {
    if i.None? then [] else [Item(n, IntV(i.value))]
  }

  function OptBool(n: u32, b: Option<bool>): seq<Item> {
    if b.None? then [] else [Item(n, BoolV(b.value))]
  }

  function LabelItems(l: Option<Label>): seq<Item> {
    if l.None? then [] else [Item(4, IntV(l.value.AsI32()))]
  }

  function TypeItems(t: Option<FieldType>): seq<Item> {
    if t.None? then [] else [Item(5, IntV(t.value.AsI32()))]
  }

  function SourceItems(s: Option<SourceCodeInfo>): seq<Item> {
    if s.None? then [] else [Item(9, MsgV(SourceMsg(s.value)))]
  }

  function Each<T>(n: u32, xs: seq<T>, f: T -> Value): seq<Item> {
    if xs == [] then [] else [Item(n, f(xs[0]))] + Each(n, xs[1..], f)
  }

  function OfStr(x: Str): Value { StrV(x) }

  function OfInt(x: i32): Value { IntV(x) }

  function OfFile(x: FileDescriptor): Value { MsgV(FileMsg(x)) }

  function OfDescriptor(x: MessageDescriptor): Value { MsgV(DescriptorMsg(x)) }

  function OfEnum(x: EnumDescriptor): Value { MsgV(EnumMsg(x)) }

  function OfService(x: ServiceDescriptor): Value { MsgV(ServiceMsg(x)) }

  function OfField(x: FieldDescriptor): Value { MsgV(FieldMsg(x)) }

  function OfLocation(x: Location): Value { MsgV(LocationMsg(x)) }

  function OfExtensionRange(x: ExtensionRange): Value { MsgV(ExtensionRangeMsg(x)) }

  function OfOneof(x: OneofDescriptor): Value { MsgV(OneofMsg(x)) }

  function OfReserved(x: ReservedRange): Value { MsgV(ReservedMsg(x)) }

  function OfEnumValue(x: EnumValueDescriptor): Value { MsgV(EnumValueMsg(x)) }

  function OfMethod(x: MethodDescriptor): Value { MsgV(MethodMsg(x)) }

  /** `if x != 0 { Some(x) } else { None }` */
  function NonZero(x: i32): Option<i32> {
    if x != 0 then Some(x) else None
  }

  /** The fields `encode` writes for a message, in its order. */
  function Items(m: Message): seq<Item> {
    match m
    case SetMsg(x) => Each(1, x.file, OfFile)
    case FileMsg(x) =>
      OptStr(1, x.name) + OptStr(2, x.package) + Each(3, x.dependency, OfStr)
      + Each(10, x.publicDependency, OfInt) + Each(11, x.weakDependency, OfInt)
      + Each(4, x.messageType, OfDescriptor) + Each(5, x.enumType, OfEnum)
      + Each(6, x.service, OfService) + Each(7, x.extension, OfField)
      + OptBytes(8, x.options)
      + SourceItems(x.sourceCodeInfo)
      + OptStr(12, x.syntax)
    case SourceMsg(x) => Each(1, x.locations, OfLocation)
    case LocationMsg(x) =>
      Each(1, x.path, OfInt) + Each(2, x.span, OfInt) + OptStr(3, x.leadingComments)
      + OptStr(4, x.trailingComments) + Each(6, x.leadingDetachedComments, OfStr)
    case DescriptorMsg(x) =>
      OptStr(1, x.name) + Each(2, x.field, OfField) + Each(6, x.extension, OfField)
      + Each(3, x.nestedType, OfDescriptor) + Each(4, x.enumType, OfEnum)
      + Each(5, x.extensionRange, OfExtensionRange) + Each(8, x.oneofDecl, OfOneof)
      + OptBytes(7, x.options) + Each(9, x.reservedRange, OfReserved)
      + Each(10, x.reservedName, OfStr)
    case FieldMsg(x) =>
      OptStr(1, x.name) + OptStr(2, x.extendee) + OptInt(3, x.number)
      + LabelItems(x.fieldLabel)
      + TypeItems(x.ty)
      + OptStr(6, x.typeName) + OptStr(7, x.defaultValue) + OptInt(9, x.oneofIndex) + OptStr(10, x.jsonName)
      + OptBytes(8, x.options) + OptBool(17, x.proto3Optional)
    case EnumMsg(x) =>
      OptStr(1, x.name) + Each(2, x.value, OfEnumValue) + OptBytes(3, x.options)
      + Each(4, x.reservedRange, OfReserved) + Each(5, x.reservedName, OfStr)
    case EnumValueMsg(x) => OptStr(1, x.name) + OptInt(2, x.number) + OptBytes(3, x.options)
    case OneofMsg(x) => OptStr(1, x.name) + OptBytes(2, x.options)
    case ReservedMsg(x) => OptInt(1, NonZero(x.start)) + OptInt(2, NonZero(x.end))
    case ExtensionRangeMsg(x) => OptInt(1, NonZero(x.start)) + OptInt(2, NonZero(x.end))
    case ServiceMsg(x) =>
      OptStr(1, x.name) + Each(2, x.methods, OfMethod) + OptBytes(3, x.options)
    case MethodMsg(x) =>
      OptStr(1, x.name) + OptStr(2, x.inputType) + OptStr(3, x.outputType) + OptBytes(4, x.options)
      + OptBool(5, x.clientStreaming) + OptBool(6, x.serverStreaming)
  }
}
