/** Round trip and merging of descriptor messages, with the exact limits under which they hold. */
module DescriptorTheorems {
  import opened Wrappers
  import opened WireBasics
  import opened WireTag
  import opened ReaderSpec
  import opened Descriptor
  import opened DescriptorLayout
  import opened DescriptorCodec
  import RT = WireRoundTrip
  import W = Writer

  // ------------------------------------------------------------- what fits the limits

  /** A message standing `depth` levels below the top fits: its bytes, its tags, and everything inside it. */
  predicate MessageFits(m: Message, limits: DecoderLimits, depth: nat)
    decreases Rank(m)
  {
    ItemsRankBound(m);
    && Within(limits.maxBytes, |EncodeMsg(m)|)
    && Within(limits.maxFields, |Items(m)|)
    && ItemsFit(KindOf(m), Items(m), limits, depth)
  }

  predicate ItemsFit(k: Kind, items: seq<Item>, limits: DecoderLimits, depth: nat)
    decreases ItemsRank(items), |items| + 1
  {
    items == [] ||
    (ValueFits(Row(k, items[0].field), items[0].value, limits, depth) && ItemsFit(k, items[1..], limits, depth))
  }

  /** Files inside a set start over with the default limits at depth 0; every other message counts one level more. */
  predicate ValueFits(arm: Arm, v: Value, limits: DecoderLimits, depth: nat)
    decreases ValueRank(v), 1
  {
    match v
    case StrV(s) => Within(limits.maxLengthDelimited, |s|) && Within(limits.maxStringLen, |s|)
    case BytesV(b) => Within(limits.maxLengthDelimited, |b|)
    case MsgV(m) =>
      && Within(limits.maxLengthDelimited, |EncodeMsg(m)|)
      && if arm.FreshArm? then MessageFits(m, DEFAULT_LIMITS, 0)
         else depth + 1 <= limits.maxDepth && MessageFits(m, limits, depth + 1)
    case _ => true
  }

  // ---------------------------------------------------------------- reading one value

  lemma SignedUnsigned(i: i32)
    ensures Signed32(Unsigned(i)) == i
  {
  }

  lemma RowRange(k: Kind, n: u32)
    ensures Row(k, n) != SkipArm ==> 1 <= n <= MAX_FIELD_NUMBER
  {
  }

  lemma FramedLonger(body: bytes)
    ensures |body| < |W.Framed(body)|
  {
  }

  /** The arm that produces `v` reads `v` back exactly when it fits, and stops behind it. */
  ghost predicate ReadsValue(arm: Arm, v: Value, s: Cursor, tail: bytes)
    requires arm != SkipArm
  {
    var o := ReadArm(arm, s);
    && (o.Done? <==>
        ValueFits(arm, v, s.limits, s.depth) && Within(s.limits.maxBytes, s.read + |EncodeValue(v)|))
    && (o.Done? ==> o == Done(v, Past(s, |EncodeValue(v)|, 0, tail)))
  }

  lemma ReadsString(v: Value, s: Cursor, tail: bytes)
    requires v.StrV? && s.rest == EncodeValue(v) + tail && |EncodeValue(v)| < U64
    ensures ReadsValue(StrArm, v, s, tail)
  {
    hide ReadLengthDelimited;
    FramedLonger(v.str);
    RT.ReadFramed(v.str, s, tail);
  }

  lemma ReadsBytes(v: Value, s: Cursor, tail: bytes)
    requires v.BytesV? && s.rest == EncodeValue(v) + tail && |EncodeValue(v)| < U64
    ensures ReadsValue(BytesArm, v, s, tail)
  {
    hide ReadLengthDelimited;
    FramedLonger(v.bs);
    RT.ReadFramed(v.bs, s, tail);
  }

  lemma ReadsNumber(arm: Arm, v: Value, s: Cursor, tail: bytes)
    requires (arm.IntArm? && v.IntV?) || (arm.BoolArm? && v.BoolV?)
    requires s.rest == EncodeValue(v) + tail
    ensures ReadsValue(arm, v, s, tail)
  {
    hide ReadVarint;
    if v.IntV? {
      SignedUnsigned(v.i);
      RT.ReadVarintEncoded(Unsigned(v.i), s, tail);
    } else {
      RT.ReadVarintEncoded(if v.b then 1 else 0, s, tail);
    }
  }

  // -------------------------------------------------------------- reading whole messages

  /** One turn of the `merge_from` loop on a field the table knows. */
  ghost predicate Turns(m: Message, it: Item, s: Cursor, t: Cursor)
    requires Produces(Row(KindOf(m), it.field), it.value)
  {
    var o := ReadArm(Row(KindOf(m), it.field), t);
    Merge(m, s) == if o.Done? then Merge(Put(m, it.field, o.value), o.next) else Fail(o.error, o.at)
  }

  lemma MergeTurns(m: Message, it: Item, s: Cursor, t: Cursor)
    requires Produces(Row(KindOf(m), it.field), it.value)
    requires s.rest != [] && ReadTag(s) == Done(Tag(it.field, WireOf(it.value)), t)
    ensures Turns(m, it, s, t)
  {
    hide ReadTag, ReadArm, Row, Put;
    var arm, tag := Row(KindOf(m), it.field), Tag(it.field, WireOf(it.value));
    ArmWire(arm, it.value);
    assert ArmOf(KindOf(m), tag) == arm;
    var o := ReadArm(arm, t);
    assert MergeField(m, tag, t) ==
           if o.Done? then Done(Put(m, it.field, o.value), o.next) else Fail(o.error, o.at);
  }

  lemma ArmWire(arm: Arm, v: Value)
    ensures Produces(arm, v) ==> arm != SkipArm && WireOfArm(arm) == WireOf(v)
  {
  }

  lemma MergeStops(m: Message, s: Cursor)
    requires s.rest != [] && ReadTag(s).Fail?
    ensures Merge(m, s).Fail?
  {
    hide ReadTag;
  }

  /** The outcome of reading `items` into `m`, when they are all the input there is. */
  ghost predicate ReadsAll(m: Message, items: seq<Item>, s: Cursor)
    requires AllProduced(KindOf(m), items)
  {
    var o := Merge(m, s);
    && (o.Done? <==>
        && ItemsFit(KindOf(m), items, s.limits, s.depth)
        && Within(s.limits.maxBytes, s.read + |EncodeItems(items)|)
        && Within(s.limits.maxFields, s.fields + |items|))
    && (o.Done? ==> o == Done(PutAll(m, items), Past(s, |EncodeItems(items)|, |items|, [])))
  }

  lemma {:induction false} ReadsMessage(arm: Arm, v: Value, s: Cursor, tail: bytes)
    requires v.MsgV? && Produces(arm, v)
    requires s.rest == EncodeValue(v) + tail && |EncodeValue(v)| < U64
    ensures ReadsValue(arm, v, s, tail)
    decreases |s.rest|, 0
  {
    hide ReadLengthDelimited, EncodeMsg, Merge, MessageFits;
    var sub := v.msg;
    var body := EncodeMsg(sub);
    FramedLonger(body);
    RT.ReadFramed(body, s, tail);
    var inner := if arm.FreshArm? then Fresh(body, DEFAULT_LIMITS) else Cursor(0, body, s.depth + 1, 0, 0, s.limits);
    ReadsWhole(sub, inner);
  }

  /** A message's own bytes, read from the start, give the message back exactly when it fits. */
  lemma {:induction false} ReadsWhole(m: Message, s: Cursor)
    requires s.rest == EncodeMsg(m) && s.read == 0 && s.fields == 0 && |EncodeMsg(m)| < U64
    ensures var o := Merge(Default(KindOf(m)), s);
            && (o.Done? <==> MessageFits(m, s.limits, s.depth))
            && (o.Done? ==> o.value == m)
    decreases |s.rest|, 2
  {
    hide Merge, Items, ItemsFit, Row, PutAll, Merged, Default;
    StoresItems(Default(KindOf(m)), m);
    MergedIntoDefault(m);
    ReadsItems(Default(KindOf(m)), Items(m), s);
  }

  lemma ReadsOne(k: Kind, it: Item, s: Cursor, tail: bytes)
    requires Produces(Row(k, it.field), it.value)
    requires s.rest == EncodeValue(it.value) + tail && |EncodeValue(it.value)| < U64
    ensures ReadsValue(Row(k, it.field), it.value, s, tail)
    decreases |s.rest|, 1
  {
    hide Row, ReadsValue, EncodeValue;
    match it.value {
      case StrV(_) => ReadsString(it.value, s, tail);
      case BytesV(_) => ReadsBytes(it.value, s, tail);
      case MsgV(_) => ReadsMessage(Row(k, it.field), it.value, s, tail);
      case _ => ReadsNumber(Row(k, it.field), it.value, s, tail);
    }
  }

  lemma {:induction false} ReadsItems(m: Message, items: seq<Item>, s: Cursor)
    requires AllProduced(KindOf(m), items)
    requires s.rest == EncodeItems(items) && |EncodeItems(items)| < U64 && InBudget(s)
    ensures ReadsAll(m, items, s)
    decreases |s.rest|, 1
  {
    if items != [] {
      hide Merge, Row, Put, ReadArm, ReadTag, EncodeItem, EncodeValue, EncodeTag, Produces, AllProduced;
      var it, t := items[0], AfterTag(items, s);
      assert Produces(Row(KindOf(m), it.field), it.value) by { FirstProduced(KindOf(m), items); }
      FirstTag(KindOf(m), items, s);
      ArmWire(Row(KindOf(m), it.field), it.value);
      if InBudget(t) {
        MergeTurns(m, it, s, t);
        ReadsOne(KindOf(m), it, t, EncodeItems(items[1..]));
        ReadsRest(m, items, s, t);
      } else {
        MergeStops(m, s);
        NoRoom(items, s);
      }
    }
  }

  function AfterTag(items: seq<Item>, s: Cursor): Cursor
    requires items != []
  {
    var it := items[0];
    Past(s, |EncodeTag(Tag(it.field, WireOf(it.value)))|, 1, EncodeValue(it.value) + EncodeItems(items[1..]))
  }

  lemma FirstProduced(k: Kind, items: seq<Item>)
    requires items != [] && AllProduced(k, items)
    ensures Produces(Row(k, items[0].field), items[0].value)
  {
  }

  lemma FirstTag(k: Kind, items: seq<Item>, s: Cursor)
    requires items != [] && Produces(Row(k, items[0].field), items[0].value) && s.rest == EncodeItems(items)
    ensures var (it, t) := (items[0], AfterTag(items, s));
            && s.rest != [] && |t.rest| < |s.rest| && |EncodeValue(it.value)| <= |t.rest|
            && if InBudget(t) then ReadTag(s) == Done(Tag(it.field, WireOf(it.value)), t) else ReadTag(s).Fail?
  {
    hide Row, ReadTag;
    var it := items[0];
    var tag := Tag(it.field, WireOf(it.value));
    ArmWire(Row(k, it.field), it.value);
    RowRange(k, it.field);
    assert EncodeTag(tag) != [];
    assert s.rest == EncodeTag(tag) + AfterTag(items, s).rest;
    RT.ReadTagEncoded(tag, s, AfterTag(items, s).rest);
  }

  lemma NoRoom(items: seq<Item>, s: Cursor)
    requires items != [] && !InBudget(AfterTag(items, s))
    ensures !(Within(s.limits.maxBytes, s.read + |EncodeItems(items)|) && Within(s.limits.maxFields, s.fields + |items|))
  {
  }

  /** After the first field: the rest is read into what the first field left, or not at all. */
  lemma {:induction false} ReadsRest(m: Message, items: seq<Item>, s: Cursor, t: Cursor)
    requires items != [] && AllProduced(KindOf(m), items) && s.rest == EncodeItems(items) && |s.rest| < U64
    requires t == AfterTag(items, s) && |t.rest| < |s.rest| && InBudget(t)
    requires Produces(Row(KindOf(m), items[0].field), items[0].value) && Turns(m, items[0], s, t)
    requires Row(KindOf(m), items[0].field) != SkipArm
    requires ReadsValue(Row(KindOf(m), items[0].field), items[0].value, t, EncodeItems(items[1..]))
    ensures ReadsAll(m, items, s)
    decreases |s.rest|, 0
  {
    hide Merge, Row, Put, ReadArm, ValueFits, EncodeValue, EncodeTag, Produces;
    var it, rest := items[0], items[1..];
    var u := Past(t, |EncodeValue(it.value)|, 0, EncodeItems(rest));
    assert EncodeItem(it) == EncodeTag(Tag(it.field, WireOf(it.value))) + EncodeValue(it.value);
    assert |EncodeItems(items)| == |EncodeItem(it)| + |EncodeItems(rest)|;
    if ReadArm(Row(KindOf(m), it.field), t).Done? {
      var m' := Put(m, it.field, it.value);
      assert Merge(m, s) == Merge(m', u);
      assert InBudget(u);
      ReadsItems(m', rest, u);
      assert PutAll(m, items) == PutAll(m', rest);
    }
  }

  // ----------------------------------------------------------------------- round trips

  /**
   * Decoding the encoding of a message gives exactly that message if and only if the message fits the limits;
   * otherwise decoding fails. It never gives another message.
   */
  lemma DecodeEncode(m: Message, limits: DecoderLimits)
    requires |EncodeMsg(m)| < U64
    ensures var r := Decode(KindOf(m), EncodeMsg(m), limits);
            if MessageFits(m, limits, 0) then r == Success(m) else r.Failure?
  {
    hide Merge, EncodeMsg, MessageFits;
    ReadsWhole(m, Fresh(EncodeMsg(m), limits));
  }

  /** Reading the bytes of `b` into `a` merges `b` into `a`, again exactly when `b` fits. */
  lemma MergeEncoded(a: Message, b: Message, limits: DecoderLimits)
    requires KindOf(a) == KindOf(b) && |EncodeMsg(b)| < U64
    ensures var o := Merge(a, Fresh(EncodeMsg(b), limits));
            && (o.Done? <==> MessageFits(b, limits, 0))
            && (o.Done? ==> o.value == Merged(a, b))
  {
    hide Merge, Items, ItemsFit, PutAll, Merged;
    StoresItems(a, b);
    ReadsItems(a, Items(b), Fresh(EncodeMsg(b), limits));
  }

  lemma {:induction false} FitsMember(k: Kind, items: seq<Item>, limits: DecoderLimits, depth: nat, it: Item)
    requires ItemsFit(k, items, limits, depth) && it in items
    ensures ValueFits(Row(k, it.field), it.value, limits, depth)
  {
    hide Row, ValueFits;
    if it != items[0] {
      assert items == [items[0]] + items[1..];
      FitsMember(k, items[1..], limits, depth, it);
    }
  }

  lemma {:induction false} EachMember<T>(n: u32, xs: seq<T>, f: T -> Value, x: T)
    requires x in xs
    ensures Item(n, f(x)) in Each(n, xs, f)
  {
    if x != xs[0] { EachMember(n, xs[1..], f, x); }
  }

  lemma NestedMember(d: MessageDescriptor, n: MessageDescriptor)
    requires n in d.nestedType
    ensures Item(3, MsgV(DescriptorMsg(n))) in Items(DescriptorMsg(d))
  {
    hide Each;
    EachMember(3, d.nestedType, OfDescriptor, n);
  }

  lemma {:induction false} TallestNested(ds: seq<MessageDescriptor>) returns (d: MessageDescriptor)
    requires ds != []
    ensures d in ds && Height(d) == MaxHeight(ds)
  {
    d := ds[0];
    if ds[1..] != [] {
      var e := TallestNested(ds[1..]);
      if Height(e) > Height(d) { d := e; }
    }
  }

  /** What fits has nested messages that fit one level further down. */
  lemma NestedFits(d: MessageDescriptor, n: MessageDescriptor, limits: DecoderLimits, depth: nat)
    requires MessageFits(DescriptorMsg(d), limits, depth) && n in d.nestedType
    ensures depth + 1 <= limits.maxDepth && MessageFits(DescriptorMsg(n), limits, depth + 1)
  {
    assert Row(DescriptorKind, 3) == MessageArm(DescriptorKind);
    hide Items, EncodeMsg, Each, Row, ItemsFit;
    NestedMember(d, n);
    FitsMember(DescriptorKind, Items(DescriptorMsg(d)), limits, depth, Item(3, MsgV(DescriptorMsg(n))));
    assert ValueFits(MessageArm(DescriptorKind), MsgV(DescriptorMsg(n)), limits, depth);
  }

  /** A message that fits has no more levels than the reader has left, the top level being free. */
  lemma {:induction false} FitsDepth(d: MessageDescriptor, limits: DecoderLimits, depth: nat)
    requires MessageFits(DescriptorMsg(d), limits, depth) && depth <= limits.maxDepth
    ensures depth + Height(d) - 1 <= limits.maxDepth
    decreases Height(d)
  {
    hide MessageFits;
    if d.nestedType != [] {
      var n := TallestNested(d.nestedType);
      NestedFits(d, n, limits, depth);
      FitsDepth(n, limits, depth + 1);
    }
  }

  /** A tree deeper than `max_depth` allows is never decoded from its own encoding. */
  lemma TooDeepFails(d: MessageDescriptor, limits: DecoderLimits)
    requires |EncodeMsg(DescriptorMsg(d))| < U64 && Height(d) - 1 > limits.maxDepth
    ensures Decode(DescriptorKind, EncodeMsg(DescriptorMsg(d)), limits).Failure?
  {
    hide Decode, EncodeMsg, MessageFits;
    DecodeEncode(DescriptorMsg(d), limits);
    if MessageFits(DescriptorMsg(d), limits, 0) { FitsDepth(d, limits, 0); }
  }

  // ------------------------------------------------- merging in pieces, on any bytes

  lemma {:induction false} ReadArmElsewhere(arm: Arm, s: Cursor, s2: Cursor, tail: bytes)
    requires arm != SkipArm && Elsewhere(s, s2, tail) && ReadArm(arm, s).Done?
    requires InBudget(Carry(s, ReadArm(arm, s).next, s2, tail))
    ensures ReadArm(arm, s2) == Done(ReadArm(arm, s).value, Carry(s, ReadArm(arm, s).next, s2, tail))
  {
    hide ReadString, ReadLengthDelimited, ReadVarint, Merge;
    match arm {
      case StrArm => ReadStringElsewhere(s, s2, tail);
      case BytesArm => ReadLengthDelimitedElsewhere(s, s2, tail);
      case IntArm => ReadVarintElsewhere(s, s2, tail);
      case BoolArm => ReadVarintElsewhere(s, s2, tail);
      case MessageArm(_) => ReadLengthDelimitedElsewhere(s, s2, tail);
      case FreshArm(_) => ReadLengthDelimitedElsewhere(s, s2, tail);
    }
  }

  lemma MergeFieldElsewhere(m: Message, tag: Tag, s: Cursor, s2: Cursor, tail: bytes)
    requires Elsewhere(s, s2, tail) && MergeField(m, tag, s).Done?
    requires InBudget(Carry(s, MergeField(m, tag, s).next, s2, tail))
    ensures MergeField(m, tag, s2) == Done(MergeField(m, tag, s).value, Carry(s, MergeField(m, tag, s).next, s2, tail))
  {
    hide ReadArm, SkipInner, Put, Row;
    var arm := ArmOf(KindOf(m), tag);
    if arm == SkipArm {
      SkipInnerElsewhere(tag.wire, s.depth, s, s2, tail);
    } else {
      ReadArmElsewhere(arm, s, s2, tail);
    }
  }

  /** Having merged what stands at `s`, the reader at `s2` goes on with what the tail holds. */
  ghost predicate GoesOn(m: Message, s: Cursor, s2: Cursor, tail: bytes)
    requires Merge(m, s).Done?
  {
    Merge(m, s2) == Merge(Merge(m, s).value, Carry(s, Merge(m, s).next, s2, tail))
  }

  lemma MergeUnfolds(m: Message, s: Cursor)
    requires s.rest != [] && Merge(m, s).Done?
    ensures var t := ReadTag(s);
            && t.Done?
            && var n := MergeField(m, t.value, t.next);
            && n.Done? && Merge(m, s) == Merge(n.value, n.next)
  {
    hide ReadTag, MergeField;
  }

  ghost predicate Leads(m: Message, s: Cursor, n: Message, u: Cursor) {
    Merge(m, s) == Merge(n, u)
  }

  lemma MergeLeads(m: Message, s: Cursor)
    requires s.rest != [] && ReadTag(s).Done? && MergeField(m, ReadTag(s).value, ReadTag(s).next).Done?
    ensures var n := MergeField(m, ReadTag(s).value, ReadTag(s).next);
            Leads(m, s, n.value, n.next)
  {
    hide ReadTag, MergeField;
  }

  lemma {:induction false} MergeElsewhere(m: Message, s: Cursor, s2: Cursor, tail: bytes)
    requires Elsewhere(s, s2, tail) && Merge(m, s).Done? && InBudget(Carry(s, Merge(m, s).next, s2, tail))
    ensures GoesOn(m, s, s2, tail)
    decreases |s.rest|
  {
    hide ReadTag, MergeField, Merge;
    if s.rest != [] {
      MergeUnfolds(m, s);
      var t := ReadTag(s);
      var n := MergeField(m, t.value, t.next);
      ReadTagElsewhere(s, s2, tail);
      MergeFieldElsewhere(m, t.value, t.next, Carry(s, t.next, s2, tail), tail);
      MergeElsewhere(n.value, n.next, Carry(s, n.next, s2, tail), tail);
      MergeLeads(m, s2);
    } else {
      MergeNothing(m, s);
      assert Carry(s, s, s2, tail) == s2;
    }
  }

  lemma {:induction false} MergeInBudget(m: Message, s: Cursor)
    requires InBudget(s)
    ensures Merge(m, s).Done? ==> InBudget(Merge(m, s).next)
    decreases |s.rest|
  {
    hide ReadTag, MergeField;
    if s.rest != [] && Merge(m, s).Done? {
      MergeUnfolds(m, s);
      var t := ReadTag(s);
      var n := MergeField(m, t.value, t.next);
      FieldInBudget(m, t.value, t.next);
      MergeInBudget(n.value, n.next);
    }
  }

  lemma FieldInBudget(m: Message, tag: Tag, s: Cursor)
    requires InBudget(s) && MergeField(m, tag, s).Done?
    ensures InBudget(MergeField(m, tag, s).next)
  {
    hide SkipInner, Put, Row, Merge;
    if ArmOf(KindOf(m), tag) == SkipArm { SkipInBudget(tag.wire, s.depth, s); }
  }

  lemma {:induction false} SkipInBudget(wire: WireType, depth: nat, s: Cursor)
    requires InBudget(s) && SkipInner(wire, depth, s).Done?
    ensures InBudget(SkipInner(wire, depth, s).next)
    decreases |s.rest|, 1
  {
    hide ReadTag;
    if wire == StartGroup { SkipGroupInBudget(depth + 1, s); }
  }

  lemma {:induction false} SkipGroupInBudget(depth: nat, s: Cursor)
    requires InBudget(s) && SkipGroup(depth, s).Done?
    ensures InBudget(SkipGroup(depth, s).next)
    decreases |s.rest|, 0
  {
    hide ReadTag;
    var t := ReadTag(s);
    if t.value.wire != EndGroup {
      SkipInBudget(t.value.wire, depth, t.next);
      SkipGroupInBudget(depth, SkipInner(t.value.wire, depth, t.next).next);
    }
  }

  /**
   * Merging is a homomorphism. If `a` is accepted into `m`, then `a + b` is accepted exactly when `b` is accepted
   * into the result and the bytes and tags of both together stay within budget; both ways give the same message.
   */
  lemma MergeConcat(m: Message, a: bytes, b: bytes, limits: DecoderLimits)
    requires Merge(m, Fresh(a, limits)).Done?
    ensures var first := Merge(m, Fresh(a, limits));
            var second := Merge(first.value, Fresh(b, limits));
            var both := Merge(m, Fresh(a + b, limits));
            && (both.Done? <==>
                && second.Done?
                && Within(limits.maxBytes, first.next.read + second.next.read)
                && Within(limits.maxFields, first.next.fields + second.next.fields))
            && (both.Done? ==> both.value == second.value)
  {
    hide Merge;
    var s, s2, alone := Fresh(a, limits), Fresh(a + b, limits), Fresh(b, limits);
    var first := Merge(m, s);
    MergeInBudget(m, s);
    MergeElsewhere(m, s, s2, b);
    var t := Carry(s, first.next, s2, b);
    assert t.rest == b;
    MergeInBudget(first.value, t);
    MergeShift(first.value, alone, t);
    MergeShift(first.value, t, alone);
  }

  /** Starting from other counters changes nothing but the counters, while they stay within budget. */
  lemma MergeShift(m: Message, s: Cursor, s2: Cursor)
    requires Elsewhere(s, s2, []) || (s.rest == s2.rest && s.limits == s2.limits && s.depth == s2.depth)
    ensures var o := Merge(m, s);
            o.Done? && InBudget(Carry(s, o.next, s2, [])) ==>
              Merge(m, s2) == Done(o.value, Carry(s, o.next, s2, []))
  {
    hide Merge;
    assert s.rest + [] == s.rest;
    var o := Merge(m, s);
    if o.Done? && InBudget(Carry(s, o.next, s2, [])) {
      MergeElsewhere(m, s, s2, []);
      MergeNothing(o.value, Carry(s, o.next, s2, []));
    }
  }

  lemma MergeNothing(m: Message, s: Cursor)
    requires s.rest == []
    ensures Merge(m, s) == Done(m, s)
  {
  }
}
