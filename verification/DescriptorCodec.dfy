/** The bytes of a descriptor message and the `merge_from` loop that reads them, as functions. */
module DescriptorCodec {
  import opened Wrappers
  import opened WireBasics
  import opened WireTag
  import opened ReaderSpec
  import opened Descriptor
  import opened DescriptorLayout
  import W = Writer
  import Varint

  // ------------------------------------------------------------------- nesting measure

  /** Levels of message nesting; only `DescriptorProto` nests without bound. */
  function Height(d: MessageDescriptor): (h: nat)
    ensures h >= 1
  {
    1 + MaxHeight(d.nestedType)
  }

  function MaxHeight(ds: seq<MessageDescriptor>): nat {
    if ds == [] then 0 else Max(Height(ds[0]), MaxHeight(ds[1..]))
  }

  function MaxFile(fs: seq<FileDescriptor>): nat {
    if fs == [] then 0 else Max(FileRank(fs[0]), MaxFile(fs[1..]))
  }

  function FileRank(f: FileDescriptor): nat {
    2 + MaxHeight(f.messageType)
  }

  /** Larger than the rank of every message inside. */
  function Rank(m: Message): nat {
    match m
    case SetMsg(x) => 1 + MaxFile(x.file)
    case FileMsg(x) => FileRank(x)
    case DescriptorMsg(x) => 1 + Height(x)
    case SourceMsg(_) => 1
    case EnumMsg(_) => 1
    case ServiceMsg(_) => 1
    case _ => 0
  }

  function ValueRank(v: Value): nat {
    if v.MsgV? then 1 + Rank(v.msg) else 0
  }

  function ItemsRank(items: seq<Item>): nat {
    if items == [] then 0 else Max(ValueRank(items[0].value), ItemsRank(items[1..]))
  }

  predicate RanksWithin(items: seq<Item>, bound: nat) {
    forall it :: it in items ==> ValueRank(it.value) <= bound
  }

  lemma {:induction false} RankWithin(items: seq<Item>, bound: nat)
    ensures RanksWithin(items, bound) <==> ItemsRank(items) <= bound
  {
    if items != [] {
      RankWithin(items[1..], bound);
      assert items == [items[0]] + items[1..];
      assert forall it :: it in items <==> it == items[0] || it in items[1..];
    }
  }

  lemma {:induction false} RankEach<T>(n: u32, xs: seq<T>, f: T -> Value, bound: nat)
    requires forall x :: x in xs ==> ValueRank(f(x)) <= bound
    ensures RanksWithin(Each(n, xs, f), bound)
  {
    if xs != [] {
      RankEach(n, xs[1..], f, bound);
    }
  }

  lemma {:induction false} HeightBound(ds: seq<MessageDescriptor>)
    ensures forall d :: d in ds ==> Height(d) <= MaxHeight(ds)
  {
    if ds != [] { HeightBound(ds[1..]); }
  }

  lemma {:induction false} FileBound(fs: seq<FileDescriptor>)
    ensures forall f :: f in fs ==> FileRank(f) <= MaxFile(fs)
  {
    if fs != [] { FileBound(fs[1..]); }
  }

  lemma Join<T>(s: seq<Item>, n: u32, xs: seq<T>, f: T -> Value, bound: nat) returns (t: seq<Item>)
    requires RanksWithin(s, bound) && forall x :: x in xs ==> ValueRank(f(x)) <= bound
    ensures t == s + Each(n, xs, f) && RanksWithin(t, bound)
  {
    t := s + Each(n, xs, f);
    RankEach(n, xs, f, bound);
  }

  /** The list-valued fields whose messages have bounded depth. */
  lemma ShallowRanks(bound: nat)
    requires bound >= 2
    ensures forall x :: ValueRank(OfStr(x)) <= bound
    ensures forall x :: ValueRank(OfInt(x)) <= bound
    ensures forall x :: ValueRank(OfEnum(x)) <= bound
    ensures forall x :: ValueRank(OfService(x)) <= bound
    ensures forall x :: ValueRank(OfField(x)) <= bound
    ensures forall x :: ValueRank(OfExtensionRange(x)) <= bound
    ensures forall x :: ValueRank(OfOneof(x)) <= bound
    ensures forall x :: ValueRank(OfReserved(x)) <= bound
  {
  }

  lemma JoinFew(s: seq<Item>, more: seq<Item>, bound: nat) returns (t: seq<Item>)
    requires RanksWithin(s, bound) && |more| <= 1 && (more != [] ==> ValueRank(more[0].value) <= bound)
    ensures t == s + more && RanksWithin(t, bound)
  {
    t := s + more;
  }

  /** Every message inside a message ranks below it. */
  lemma ItemsRankBound(m: Message)
    ensures ItemsRank(Items(m)) <= Rank(m)
  {
    hide Items, RanksWithin;
    RankWithin(Items(m), Rank(m));
    match m {
      case SetMsg(x) => SetRanks(x);
      case FileMsg(x) => FileRanks(x);
      case DescriptorMsg(x) => DescriptorRanks(x);
      case _ => FlatRanks(m);
    }
  }

  /** The other kinds hold only messages of fixed depth: the field table says so. */
  lemma FlatRanks(m: Message)
    requires !m.SetMsg? && !m.FileMsg? && !m.DescriptorMsg?
    ensures RanksWithin(Items(m), Rank(m))
  {
    hide Items, Merged;
    StoresItems(m, m);
    forall it | it in Items(m)
      ensures ValueRank(it.value) <= Rank(m)
    {
      assert Produces(Row(KindOf(m), it.field), it.value);
    }
  }

  lemma SetRanks(x: FileDescriptorSet)
    ensures RanksWithin(Items(SetMsg(x)), Rank(SetMsg(x)))
  {
    FileBound(x.file);
    RankEach(1, x.file, OfFile, Rank(SetMsg(x)));
  }

  lemma FileRanks(x: FileDescriptor)
    ensures RanksWithin(Items(FileMsg(x)), FileRank(x))
  {
    hide RanksWithin, Each, FileRank;
    var s := FileRanksFirst(x);
    s := FileRanksRest(x, s);
  }

  lemma FileRanksFirst(x: FileDescriptor) returns (s: seq<Item>)
    ensures s == OptStr(1, x.name) + OptStr(2, x.package) + Each(3, x.dependency, OfStr)
                 + Each(10, x.publicDependency, OfInt) + Each(11, x.weakDependency, OfInt)
    ensures RanksWithin(s, FileRank(x))
  {
    hide RanksWithin, Each;
    var r := FileRank(x);
    ShallowRanks(r);
    s := JoinFew([], OptStr(1, x.name), r) by { assert RanksWithin([], r) by { NoRanks(r); } }
    assert s == OptStr(1, x.name);
    s := JoinFew(s, OptStr(2, x.package), r);
    s := Join(s, 3, x.dependency, OfStr, r);
    s := Join(s, 10, x.publicDependency, OfInt, r);
    s := Join(s, 11, x.weakDependency, OfInt, r);
  }

  lemma FileRanksRest(x: FileDescriptor, first: seq<Item>) returns (s: seq<Item>)
    requires RanksWithin(first, FileRank(x))
    ensures s == first + Each(4, x.messageType, OfDescriptor) + Each(5, x.enumType, OfEnum)
                 + Each(6, x.service, OfService) + Each(7, x.extension, OfField) + OptBytes(8, x.options)
                 + SourceItems(x.sourceCodeInfo) + OptStr(12, x.syntax)
    ensures RanksWithin(s, FileRank(x))
  {
    hide RanksWithin, Each;
    var r := FileRank(x);
    ShallowRanks(r);
    HeightBound(x.messageType);
    s := Join(first, 4, x.messageType, OfDescriptor, r);
    s := Join(s, 5, x.enumType, OfEnum, r);
    s := Join(s, 6, x.service, OfService, r);
    s := Join(s, 7, x.extension, OfField, r);
    s := JoinFew(s, OptBytes(8, x.options), r);
    s := JoinFew(s, SourceItems(x.sourceCodeInfo), r);
    s := JoinFew(s, OptStr(12, x.syntax), r);
  }

  lemma NoRanks(r: nat)
    ensures RanksWithin([], r)
  {
  }

  lemma DescriptorRanks(x: MessageDescriptor)
    ensures RanksWithin(Items(DescriptorMsg(x)), 1 + Height(x))
  {
    hide RanksWithin, Each;
    var r := 1 + Height(x);
    ShallowRanks(r);
    HeightBound(x.nestedType);
    var s := JoinFew([], OptStr(1, x.name), r) by { assert RanksWithin([], r) by { NoRanks(r); } }
    assert s == OptStr(1, x.name);
    s := Join(s, 2, x.field, OfField, r);
    s := Join(s, 6, x.extension, OfField, r);
    s := Join(s, 3, x.nestedType, OfDescriptor, r);
    s := Join(s, 4, x.enumType, OfEnum, r);
    s := Join(s, 5, x.extensionRange, OfExtensionRange, r);
    s := Join(s, 8, x.oneofDecl, OfOneof, r);
    s := JoinFew(s, OptBytes(7, x.options), r);
    s := Join(s, 9, x.reservedRange, OfReserved, r);
    s := Join(s, 10, x.reservedName, OfStr, r);
  }

  // ---------------------------------------------------------------------------- bytes

  function EncodeMsg(m: Message): bytes
    decreases Rank(m)
  {
    ItemsRankBound(m);
    EncodeItems(Items(m))
  }

  function EncodeItems(items: seq<Item>): bytes
    decreases ItemsRank(items), |items| + 1
  {
    if items == [] then [] else EncodeItem(items[0]) + EncodeItems(items[1..])
  }

  function EncodeValue(v: Value): bytes
    decreases ValueRank(v), 0
  {
    match v
    case StrV(s) => W.Framed(s)
    case BytesV(b) => W.Framed(b)
    case IntV(i) => Varint.Encode(Unsigned(i))
    case BoolV(b) => Varint.Encode(if b then 1 else 0)
    case MsgV(m) => W.Framed(EncodeMsg(m))
  }

  function WireOf(v: Value): WireType {
    match v
    case IntV(_) => Varint64
    case BoolV(_) => Varint64
    case _ => LengthDelimited
  }

  function EncodeItem(it: Item): bytes
    decreases ValueRank(it.value), 1
  {
    EncodeTag(Tag(it.field, WireOf(it.value))) + EncodeValue(it.value)
  }

  lemma {:induction false} EncodeItemsConcat(a: seq<Item>, b: seq<Item>)
    ensures EncodeItems(a + b) == EncodeItems(a) + EncodeItems(b)
  {
    hide EncodeItem;
    if a == [] {
      assert a + b == b;
    } else {
      assert (a + b)[1..] == a[1..] + b;
      EncodeItemsConcat(a[1..], b);
    }
  }

  // ----------------------------------------------------------------------- merge_from

  /** `merge_from`: read a tag, obey its arm, until the input is used up. */
  function Merge(m: Message, s: Cursor): (o: Out<Message>)
    ensures o.Done? ==> Onward(s, o.next) && o.next.rest == [] && KindOf(o.value) == KindOf(m)
    decreases |s.rest|
  {
    if s.rest == [] then Done(m, s)
    else
      var t :- ReadTag(s);
      var n :- MergeField(m, t.0, t.1);
      Merge(n.0, n.1)
  }

  /** One arm of `merge_from`, after the tag. */
  function MergeField(m: Message, tag: Tag, s: Cursor): (o: Out<Message>)
    ensures o.Done? ==> Onward(s, o.next) && |o.next.rest| < |s.rest| && KindOf(o.value) == KindOf(m)
    decreases |s.rest|, 1
  {
    var arm := ArmOf(KindOf(m), tag);
    if arm == SkipArm then
      var v :- Skip(tag.wire, s);
      Done(m, v.1)
    else
      var v :- ReadArm(arm, s);
      Done(Put(m, tag.field, v.0), v.1)
  }

  function ReadArm(arm: Arm, s: Cursor): (o: Out<Value>)
    requires arm != SkipArm
    ensures o.Done? ==> Onward(s, o.next) && |o.next.rest| < |s.rest| && Produces(arm, o.value)
    decreases |s.rest|, 0
  {
    match arm
    case StrArm => var v :- ReadString(s); Done(StrV(v.0), v.1)
    case BytesArm => var v :- ReadLengthDelimited(s); Done(BytesV(v.0), v.1)
    case IntArm => var v :- ReadVarint(s); Done(IntV(Signed32(v.0)), v.1)
    case BoolArm => var v :- ReadVarint(s); Done(BoolV(v.0 != 0), v.1)
    case MessageArm(k) =>
      var body :- ReadLengthDelimited(s);
      var sub :- Nested(body.1, body.0);
      Embed(Merge(Default(k), sub.0), body.1)
    case FreshArm(k) =>
      var body :- ReadLengthDelimited(s);
      Embed(Merge(Default(k), Fresh(body.0, DEFAULT_LIMITS)), body.1)
  }

  /** The sub-message's outcome, seen by the outer reader, which stands behind the body either way. */
  function Embed(o: Out<Message>, after: Cursor): Out<Value> {
    match o
    case Done(m, _) => Done(MsgV(m), after)
    case Fail(e, _) => Fail(e, after)
  }

  /** `decode_with_limits`, and `Message::decode` with the default limits. */
  function Decode(k: Kind, input: bytes, limits: DecoderLimits): Result<Message, Error> {
    match Merge(Default(k), Fresh(input, limits))
    case Done(m, _) => Success(m)
    case Fail(e, _) => Failure(e)
  }
}
