/**
 * Single fields in front of `merge_from` (types.rs), whatever wrote them: which ones a message type knows, what an
 * unknown one does, and what the values of the known ones mean.
 */
module DescriptorFields {
  import opened Wrappers
  import opened WireBasics
  import opened WireTag
  import opened ReaderSpec
  import opened Descriptor
  import opened DescriptorCodec
  import opened DescriptorTheorems
  import G = WireGrammar
  import Utf8
  import Varint

  // ------------------------------------------------------------------- the fields of each type

  function Texts(k: Kind): set<nat> {
    match k
    case SetKind => {}
    case FileKind => {1, 2, 3, 12}
    case SourceKind => {}
    case LocationKind => {3, 4, 6}
    case DescriptorKind => {1, 10}
    case FieldKind => {1, 2, 6, 7, 10}
    case EnumKind => {1, 5}
    case EnumValueKind => {1}
    case OneofKind => {1}
    case ReservedKind => {}
    case ExtensionRangeKind => {}
    case ServiceKind => {1}
    case MethodKind => {1, 2, 3}
  }

  /** The options, kept as bytes. */
  function Options(k: Kind): set<nat> {
    match k
    case FileKind => {8}
    case DescriptorKind => {7}
    case FieldKind => {8}
    case EnumKind => {3}
    case EnumValueKind => {3}
    case OneofKind => {2}
    case ServiceKind => {3}
    case MethodKind => {4}
    case _ => {}
  }

  /** The fields that are messages, and their types. */
  function Messages(k: Kind): map<nat, Kind> {
    match k
    case SetKind => map[1 := FileKind]
    case FileKind => map[4 := DescriptorKind, 5 := EnumKind, 6 := ServiceKind, 7 := FieldKind, 9 := SourceKind]
    case SourceKind => map[1 := LocationKind]
    case DescriptorKind =>
      map[2 := FieldKind, 3 := DescriptorKind, 4 := EnumKind, 5 := ExtensionRangeKind, 6 := FieldKind, 8 := OneofKind,
          9 := ReservedKind]
    case EnumKind => map[2 := EnumValueKind, 4 := ReservedKind]
    case ServiceKind => map[2 := MethodKind]
    case _ => map[]
  }

  function Ints(k: Kind): set<nat> {
    match k
    case FileKind => {10, 11}
    case LocationKind => {1, 2}
    case FieldKind => {3, 4, 5, 9}
    case EnumValueKind => {2}
    case ReservedKind => {1, 2}
    case ExtensionRangeKind => {1, 2}
    case _ => {}
  }

  function Bools(k: Kind): set<nat> {
    match k
    case FieldKind => {17}
    case MethodKind => {5, 6}
    case _ => {}
  }

  /** The number is not one of the type's, or comes with another wire type than its own. */
  predicate Unknown(k: Kind, tag: Tag) {
    && !(tag.wire == LengthDelimited && (tag.field in Texts(k) || tag.field in Options(k) || tag.field in Messages(k)))
    && !(tag.wire == Varint64 && (tag.field in Ints(k) || tag.field in Bools(k)))
  }

  lemma UnknownArm(k: Kind, tag: Tag)
    ensures Unknown(k, tag) <==> ArmOf(k, tag) == SkipArm
  {
  }

  lemma KnownArm(k: Kind, n: u32)
    ensures n in Ints(k) ==> ArmOf(k, Tag(n, Varint64)) == IntArm
    ensures n in Bools(k) ==> ArmOf(k, Tag(n, Varint64)) == BoolArm
    ensures n in Texts(k) ==> ArmOf(k, Tag(n, LengthDelimited)) == StrArm
    ensures n in Options(k) ==> ArmOf(k, Tag(n, LengthDelimited)) == BytesArm
  {
  }

  lemma MessageArms(k: Kind, n: u32)
    requires n in Messages(k)
    ensures ArmOf(k, Tag(n, LengthDelimited)) ==
            if k == SetKind then FreshArm(Messages(k)[n]) else MessageArm(Messages(k)[n])
  {
  }

  // ---------------------------------------------------------------------------- unknown fields

  /** After the tag of an unknown field its value is skipped, with the errors of skipping, and the message is as before. */
  lemma UnknownIsSkipped(m: Message, s: Cursor)
    requires |s.rest| > 0 && ReadTag(s).Done? && Unknown(KindOf(m), ReadTag(s).value)
    ensures var o := Skip(ReadTag(s).value.wire, ReadTag(s).next);
            Merge(m, s) == if o.Done? then Merge(m, o.next) else Fail(o.error, o.at)
  {
    hide ReadTag, SkipInner, Unknown, ArmOf;
    UnknownArm(KindOf(m), ReadTag(s).value);
  }

  /** A field as it is written: its tag, in any spelling, and its value. */
  predicate Written(raw: bytes, tag: Tag, t: G.Tree) {
    DecodeTag(raw) == Success((tag, |raw|)) && G.WellFormed(t) && G.WireOf(t) == tag.wire
  }

  /** Room for one more field with this tag and value. */
  predicate Affords(raw: bytes, t: G.Tree, s: Cursor) {
    && G.LengthsFit(t, s.limits) && s.depth + G.Nesting(t) <= s.limits.maxDepth
    && Within(s.limits.maxBytes, s.read + |raw| + |G.Flat(t)|)
    && Within(s.limits.maxFields, s.fields + 1 + G.Tags(t))
  }

  lemma TagInFront(raw: bytes, tag: Tag, s: Cursor, tail: bytes)
    requires DecodeTag(raw) == Success((tag, |raw|)) && s.rest == raw + tail
    ensures var u := Past(s, |raw|, 1, tail);
            |s.rest| > 0 && if InBudget(u) then ReadTag(s) == Done(tag, u) else ReadTag(s).Fail?
  {
    hide ReadTag, DecodeTag;
    assert G.IsTagOf(raw, tag.wire) && |raw| > 0 by { TagNotEmpty(raw); }
    G.ReadTagOver(raw, tag.wire, s, tail);
  }

  lemma TagNotEmpty(raw: bytes)
    requires DecodeTag(raw).Success?
    ensures |raw| > 0
  {
  }

  lemma RoomAfterTag(raw: bytes, t: G.Tree, s: Cursor, u: Cursor, tail: bytes)
    requires u == Past(s, |raw|, 1, u.rest)
    ensures Affords(raw, t, s) <==> InBudget(u) && G.Admits(t, s.depth, u)
    ensures Past(u, |G.Flat(t)|, G.Tags(t), tail) == Past(s, |raw| + |G.Flat(t)|, 1 + G.Tags(t), tail)
  {
    hide G.Flat, G.Tags, G.Nesting, G.LengthsFit;
  }

  /** An unknown field in front: read over exactly when there is room for it, and then nothing but counters changed. */
  lemma UnknownInFront(m: Message, raw: bytes, tag: Tag, t: G.Tree, s: Cursor, tail: bytes)
    requires Unknown(KindOf(m), tag) && Written(raw, tag, t) && s.rest == raw + (G.Flat(t) + tail)
    requires InBudget(s) && s.depth <= s.limits.maxDepth
    ensures if Affords(raw, t, s) then Merge(m, s) == Merge(m, Past(s, |raw| + |G.Flat(t)|, 1 + G.Tags(t), tail))
            else Merge(m, s).Fail?
  {
    hide Merge, ReadTag, SkipInner, Unknown, DecodeTag, G.Flat, G.Tags, G.Nesting, G.LengthsFit, G.WellFormed;
    hide Affords, G.Admits, InBudget, KindOf;
    var u := Past(s, |raw|, 1, G.Flat(t) + tail);
    TagInFront(raw, tag, s, G.Flat(t) + tail);
    RoomAfterTag(raw, t, s, u, tail);
    if InBudget(u) {
      G.SkipOver(t, s.depth, u, tail);
      UnknownIsSkipped(m, s);
    } else {
      MergeStops(m, s);
    }
  }

  /** Merging what stands behind `a`, from the cursor where `a` ended. */
  lemma MergeBehind(m: Message, a: bytes, b: bytes, limits: DecoderLimits)
    requires Merge(m, Fresh(a, limits)).Done?
    ensures var first := Merge(m, Fresh(a, limits));
            var at := first.next.(rest := b);
            && Merge(m, Fresh(a + b, limits)) == Merge(first.value, at)
            && InBudget(at) && at.depth == 0 && at.limits == limits && KindOf(first.value) == KindOf(m)
  {
    hide Merge, KindOf;
    var (s, s2) := (Fresh(a, limits), Fresh(a + b, limits));
    var first := Merge(m, s);
    MergeInBudget(m, s);
    MergeElsewhere(m, s, s2, b);
    assert Carry(s, first.next, s2, b) == first.next.(rest := b);
  }

  /** Moving the cursor by some bytes and fields first. */
  lemma MergeMoved(m: Message, s: Cursor, bytes_: nat, fields: nat)
    requires InBudget(s) && InBudget(Past(s, bytes_, fields, s.rest))
    ensures var (plain, moved) := (Merge(m, s), Merge(m, Past(s, bytes_, fields, s.rest)));
            && (moved.Done? <==>
                && plain.Done? && Within(s.limits.maxBytes, plain.next.read + bytes_)
                && Within(s.limits.maxFields, plain.next.fields + fields))
            && (moved.Done? ==> moved.value == plain.value)
  {
    hide Merge;
    var s2 := Past(s, bytes_, fields, s.rest);
    MergeInBudget(m, s);
    MergeInBudget(m, s2);
    MergeShift(m, s, s2);
    MergeShift(m, s2, s);
  }

  lemma AffordsAlike(raw: bytes, t: G.Tree, s: Cursor, rest: bytes)
    ensures Affords(raw, t, s.(rest := rest)) <==> Affords(raw, t, s)
  {
  }

  /** Room for the field at a place, and at the end of what is read from there. */
  lemma RoomGrows(raw: bytes, t: G.Tree, at: Cursor, end: Cursor)
    requires at.depth == 0 && at.limits == end.limits && at.read <= end.read && at.fields <= end.fields
    ensures Affords(raw, t, at) <==>
            && G.LengthsFit(t, at.limits) && G.Nesting(t) <= at.limits.maxDepth
            && InBudget(Past(at, |raw| + |G.Flat(t)|, 1 + G.Tags(t), at.rest))
    ensures Within(at.limits.maxBytes, end.read + |raw| + |G.Flat(t)|)
            && Within(at.limits.maxFields, end.fields + 1 + G.Tags(t)) ==>
              InBudget(Past(at, |raw| + |G.Flat(t)|, 1 + G.Tags(t), at.rest))
  {
    hide G.Flat, G.Tags, G.Nesting, G.LengthsFit;
  }

  /**
   * An unknown field between two texts: if the first is accepted, the three together are accepted exactly when the
   * two alone are and there is room for the field, and give the same message. Either text may be empty.
   */
  lemma UnknownBetween(m: Message, a: bytes, raw: bytes, tag: Tag, t: G.Tree, b: bytes, limits: DecoderLimits)
    requires Unknown(KindOf(m), tag) && Written(raw, tag, t) && Merge(m, Fresh(a, limits)).Done?
    ensures var plain := Merge(m, Fresh(a + b, limits));
            var with_ := Merge(m, Fresh(a + (raw + (G.Flat(t) + b)), limits));
            && (with_.Done? <==>
                && plain.Done? && G.LengthsFit(t, limits) && G.Nesting(t) <= limits.maxDepth
                && Within(limits.maxBytes, plain.next.read + |raw| + |G.Flat(t)|)
                && Within(limits.maxFields, plain.next.fields + 1 + G.Tags(t)))
            && (with_.Done? ==> with_.value == plain.value)
  {
    hide Merge, Unknown, DecodeTag, G.Flat, G.Tags, G.Nesting, G.LengthsFit, G.WellFormed, KindOf;
    var u := raw + (G.Flat(t) + b);
    var first := Merge(m, Fresh(a, limits));
    MergeBehind(m, a, b, limits);
    MergeBehind(m, a, u, limits);
    var at := first.next.(rest := b);
    hide Affords, InBudget, Within;
    UnknownInFront(first.value, raw, tag, t, first.next.(rest := u), b);
    var plain := Merge(first.value, at);
    if plain.Done? { RoomGrows(raw, t, at, plain.next); }
    RoomGrows(raw, t, at, at);
    assert Affords(raw, t, at) <==> Affords(raw, t, first.next.(rest := u)) by { AffordsAlike(raw, t, at, u); }
    if Affords(raw, t, at) { MergeMoved(first.value, at, |raw| + |G.Flat(t)|, 1 + G.Tags(t)); }
  }

  // ----------------------------------------------------------------------------- known fields

  /** An integer field: any varint, and of it the low 32 bits as a signed number. */
  lemma IntField(m: Message, n: u32, raw: bytes, i: i32, s: Cursor, tail: bytes)
    requires n in Ints(KindOf(m)) && s.rest == raw + tail
    requires Varint.IsVarint(raw) && |raw| <= 10 && (i - Varint.Value(raw)) % 0x1_0000_0000 == 0
    ensures Produces(Row(KindOf(m), n), IntV(i))
    ensures MergeField(m, Tag(n, Varint64), s) ==
            if Within(s.limits.maxBytes, s.read + |raw|) then Done(Put(m, n, IntV(i)), Past(s, |raw|, 0, tail))
            else Fail(LimitExceeded(MaxBytes), Past(s, |raw|, 0, tail))
  {
    hide Row, ReadVarint, Put, KindOf, Ints;
    KnownArm(KindOf(m), n);
    ArmIsRow(KindOf(m), Tag(n, Varint64));
    G.ReadVarintOver(raw, s, tail);
    LowBits(Varint.Value(raw), i);
  }

  lemma ArmIsRow(k: Kind, tag: Tag)
    requires ArmOf(k, tag) != SkipArm
    ensures Row(k, tag.field) == ArmOf(k, tag)
  {
  }

  lemma LowBits(v: nat, i: i32)
    requires (i - v) % 0x1_0000_0000 == 0
    ensures Signed32(v % U64) == i
  {
    var (q, k) := (v / U64, (i - v) / 0x1_0000_0000);
    assert v % U64 == v - q * U64;
    assert i - v % U64 == (k + q * 0x1_0000_0000) * 0x1_0000_0000;
  }

  /** A boolean field: any varint, true unless its low 64 bits are 0. */
  lemma BoolField(m: Message, n: u32, raw: bytes, s: Cursor, tail: bytes)
    requires n in Bools(KindOf(m)) && s.rest == raw + tail
    requires Varint.IsVarint(raw) && |raw| <= 10
    ensures var b := Varint.Value(raw) % 0x1_0000_0000_0000_0000 != 0;
            && Produces(Row(KindOf(m), n), BoolV(b))
            && MergeField(m, Tag(n, Varint64), s) ==
               if Within(s.limits.maxBytes, s.read + |raw|) then Done(Put(m, n, BoolV(b)), Past(s, |raw|, 0, tail))
               else Fail(LimitExceeded(MaxBytes), Past(s, |raw|, 0, tail))
  {
    hide Row, ReadVarint, Put, KindOf, Bools;
    KnownArm(KindOf(m), n);
    ArmIsRow(KindOf(m), Tag(n, Varint64));
    G.ReadVarintOver(raw, s, tail);
  }

  /** A length, in any spelling of a varint, and that many bytes. */
  predicate Sized(prefix: bytes, body: bytes) {
    Varint.IsVarint(prefix) && |prefix| <= 10 && Varint.Value(prefix) % 0x1_0000_0000_0000_0000 == |body|
  }

  /** The limits in the order they are looked at: the bytes of the length, the length, the bytes of the body. */
  function Refused(prefix: bytes, body: bytes, s: Cursor): Option<Error> {
    if s.limits.maxBytes.Some? && s.read + |prefix| > s.limits.maxBytes.value then Some(LimitExceeded(MaxBytes))
    else if s.limits.maxLengthDelimited.Some? && |body| > s.limits.maxLengthDelimited.value then
      Some(LimitExceeded(MaxLengthDelimited))
    else if s.limits.maxBytes.Some? && s.read + |prefix| + |body| > s.limits.maxBytes.value then
      Some(LimitExceeded(MaxBytes))
    else None
  }

  lemma BodyRead(prefix: bytes, body: bytes, s: Cursor, tail: bytes)
    requires Sized(prefix, body) && s.rest == prefix + (body + tail)
    ensures var o := ReadLengthDelimited(s);
            match Refused(prefix, body, s)
            case Some(e) => o.Fail? && o.error == e
            case None => o == Done(body, Past(s, |prefix| + |body|, 0, tail))
  {
    hide ReadVarint;
    G.ReadVarintOver(prefix, s, body + tail);
    assert (body + tail)[..|body|] == body && (body + tail)[|body|..] == tail;
  }

  lemma TextRead(prefix: bytes, body: bytes, s: Cursor, tail: bytes)
    requires Sized(prefix, body) && s.rest == prefix + (body + tail)
    ensures var o := ReadString(s);
            match Refused(prefix, body, s)
            case Some(e) => o.Fail? && o.error == e
            case None =>
              if s.limits.maxStringLen.Some? && |body| > s.limits.maxStringLen.value then
                o.Fail? && o.error == LimitExceeded(MaxStringLen)
              else if !Utf8.IsUtf8(body) then o.Fail? && o.error == Utf8Error(Utf8.ValidUpTo(body))
              else o == Done(body, Past(s, |prefix| + |body|, 0, tail))
  {
    hide ReadLengthDelimited, Utf8.IsUtf8, Sized, Refused;
    BodyRead(prefix, body, s, tail);
  }

  /** A text field: what is refused, in which order, and otherwise the text. */
  lemma TextField(m: Message, n: u32, prefix: bytes, body: bytes, s: Cursor, tail: bytes)
    requires n in Texts(KindOf(m)) && Sized(prefix, body) && s.rest == prefix + (body + tail)
    ensures Produces(Row(KindOf(m), n), StrV([]))
    ensures var o := MergeField(m, Tag(n, LengthDelimited), s);
            match Refused(prefix, body, s)
            case Some(e) => o.Fail? && o.error == e
            case None =>
              if s.limits.maxStringLen.Some? && |body| > s.limits.maxStringLen.value then
                o.Fail? && o.error == LimitExceeded(MaxStringLen)
              else if !Utf8.IsUtf8(body) then o.Fail? && o.error == Utf8Error(Utf8.ValidUpTo(body))
              else o == Done(Put(m, n, StrV(body)), Past(s, |prefix| + |body|, 0, tail))
  {
    hide Row, ReadString, Put, KindOf, Texts, Utf8.IsUtf8, Sized, Refused;
    KnownArm(KindOf(m), n);
    ArmIsRow(KindOf(m), Tag(n, LengthDelimited));
    TextRead(prefix, body, s, tail);
  }

  /** Options are kept as they are. */
  lemma OptionsField(m: Message, n: u32, prefix: bytes, body: bytes, s: Cursor, tail: bytes)
    requires n in Options(KindOf(m)) && Sized(prefix, body) && s.rest == prefix + (body + tail)
    ensures Produces(Row(KindOf(m), n), BytesV(body))
    ensures var o := MergeField(m, Tag(n, LengthDelimited), s);
            match Refused(prefix, body, s)
            case Some(e) => o.Fail? && o.error == e
            case None => o == Done(Put(m, n, BytesV(body)), Past(s, |prefix| + |body|, 0, tail))
  {
    hide Row, ReadLengthDelimited, Put, KindOf, Options, Sized, Refused;
    KnownArm(KindOf(m), n);
    ArmIsRow(KindOf(m), Tag(n, LengthDelimited));
    BodyRead(prefix, body, s, tail);
  }

  /** Where a nested message is read: one level deeper, or, for the files of a set, with the default limits at the top. */
  function InnerCursor(k: Kind, body: bytes, s: Cursor): Cursor {
    if k == SetKind then
      Cursor(0, body, 0, 0, 0,
             DecoderLimits(Some(67108864), 100, Some(1000000), Some(16777216), Some(16777216), Some(16777216)))
    else Cursor(0, body, s.depth + 1, 0, 0, s.limits)
  }

  /** A message field: the body decoded by itself, from the default message of its type. */
  lemma MessageField(m: Message, n: u32, prefix: bytes, body: bytes, s: Cursor, tail: bytes)
    requires n in Messages(KindOf(m)) && Sized(prefix, body) && s.rest == prefix + (body + tail)
    ensures var o := MergeField(m, Tag(n, LengthDelimited), s);
            var inner := Merge(Default(Messages(KindOf(m))[n]), InnerCursor(KindOf(m), body, s));
            match Refused(prefix, body, s)
            case Some(e) => o.Fail? && o.error == e
            case None =>
              if KindOf(m) != SetKind && s.depth + 1 > s.limits.maxDepth then o.Fail? && o.error == DepthLimitExceeded
              else if inner.Fail? then o.Fail? && o.error == inner.error
              else
                && Produces(Row(KindOf(m), n), MsgV(inner.value))
                && o == Done(Put(m, n, MsgV(inner.value)), Past(s, |prefix| + |body|, 0, tail))
  {
    hide Row, ReadLengthDelimited, Put, KindOf, Messages, Sized, Refused, Merge, Default;
    MessageArms(KindOf(m), n);
    ArmIsRow(KindOf(m), Tag(n, LengthDelimited));
    BodyRead(prefix, body, s, tail);
  }

  /** A label or a type that does not exist is cleared; the others are numbered from 1 in this order. */
  lemma EnumeratedFields(x: FieldDescriptor, i: i32)
    ensures Put(FieldMsg(x), 4, IntV(i)) ==
            FieldMsg(x.(fieldLabel := if 1 <= i <= 3 then Some([Optional, Required, Repeated][i - 1]) else None))
    ensures Put(FieldMsg(x), 5, IntV(i)) ==
            FieldMsg(x.(ty :=
              if 1 <= i <= 18 then
                Some([Double, Float, Int64, Uint64, Int32, Fixed64Type, Fixed32Type, Bool, String, Group, MessageType,
                      Bytes, Uint32, Enum, Sfixed32, Sfixed64, Sint32, Sint64][i - 1])
              else None))
  {
    EnumeratedTypes(i);
  }

  lemma EnumeratedTypes(i: i32)
    ensures FieldTypeFromI32(i) ==
            if 1 <= i <= 18 then
              Some([Double, Float, Int64, Uint64, Int32, Fixed64Type, Fixed32Type, Bool, String, Group, MessageType,
                    Bytes, Uint32, Enum, Sfixed32, Sfixed64, Sint32, Sint64][i - 1])
            else None
  {
  }
}
