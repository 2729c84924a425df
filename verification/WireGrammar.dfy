/**
 * The wire grammar as syntax trees (Protocol Buffers Encoding, "Message Structure" and "Groups"), and the proof
 * that `skip` steps over exactly one value of it.
 */
module WireGrammar {
  import opened WireBasics
  import opened WireTag
  import opened ReaderSpec
  import Varint

  datatype Tree =
    | VarintTree(raw: bytes)
    | Fixed64Tree(raw: bytes)
    | Fixed32Tree(raw: bytes)
    | LengthTree(prefix: bytes, body: bytes)
    | GroupTree(members: seq<Member>, end: bytes)

  /** One field inside a group: its tag, as written, and its value. */
  datatype Member = Member(tag: bytes, value: Tree)

  function WireOf(t: Tree): WireType {
    match t
    case VarintTree(_) => Varint64
    case Fixed64Tree(_) => Fixed64
    case Fixed32Tree(_) => Fixed32
    case LengthTree(_, _) => LengthDelimited
    case GroupTree(_, _) => StartGroup
  }

  predicate IsTagOf(s: bytes, wire: WireType) {
    DecodeTag(s).Success? && DecodeTag(s).value.1 == |s| && DecodeTag(s).value.0.wire == wire
  }

  /** Any spelling of a varint of up to ten bytes; the end tag of a group may carry any field number. */
  predicate WellFormed(t: Tree) {
    match t
    case VarintTree(raw) => Varint.IsVarint(raw) && |raw| <= Varint.MAX_VARINT_LEN
    case Fixed64Tree(raw) => |raw| == 8
    case Fixed32Tree(raw) => |raw| == 4
    case LengthTree(prefix, body) =>
      && Varint.IsVarint(prefix) && |prefix| <= Varint.MAX_VARINT_LEN
      && Varint.Value(prefix) % U64 == |body|
    case GroupTree(members, end) => WellFormedAll(members) && IsTagOf(end, EndGroup)
  }

  predicate WellFormedAll(ms: seq<Member>) {
    ms == [] || (WellFormed(ms[0].value) && IsTagOf(ms[0].tag, WireOf(ms[0].value)) && WellFormedAll(ms[1..]))
  }

  function Flat(t: Tree): bytes {
    match t
    case VarintTree(raw) => raw
    case Fixed64Tree(raw) => raw
    case Fixed32Tree(raw) => raw
    case LengthTree(prefix, body) => prefix + body
    case GroupTree(members, end) => FlatAll(members) + end
  }

  function FlatAll(ms: seq<Member>): bytes {
    if ms == [] then [] else ms[0].tag + (Flat(ms[0].value) + FlatAll(ms[1..]))
  }

  /** Levels of group nesting. */
  function Nesting(t: Tree): nat {
    match t
    case GroupTree(members, _) => 1 + NestingAll(members)
    case _ => 0
  }

  function NestingAll(ms: seq<Member>): nat {
    if ms == [] then 0 else Max(Nesting(ms[0].value), NestingAll(ms[1..]))
  }

  /** Tags read while stepping over the value, end tags included. */
  function Tags(t: Tree): nat {
    match t
    case GroupTree(members, _) => TagsAll(members) + 1
    case _ => 0
  }

  function TagsAll(ms: seq<Member>): nat {
    if ms == [] then 0 else 1 + Tags(ms[0].value) + TagsAll(ms[1..])
  }

  predicate LengthsFit(t: Tree, limits: DecoderLimits) {
    match t
    case LengthTree(_, body) => Within(limits.maxLengthDelimited, |body|)
    case GroupTree(members, _) => LengthsFitAll(members, limits)
    case _ => true
  }

  predicate LengthsFitAll(ms: seq<Member>, limits: DecoderLimits) {
    ms == [] || (LengthsFit(ms[0].value, limits) && LengthsFitAll(ms[1..], limits))
  }

  /** Room for `used` bytes and `tags` tags, and for `nesting` levels below `depth`. */
  predicate Affords(s: Cursor, depth: nat, nesting: nat, used: nat, tags: nat) {
    && depth + nesting <= s.limits.maxDepth
    && Within(s.limits.maxBytes, s.read + used)
    && Within(s.limits.maxFields, s.fields + tags)
  }

  /** What a value asks of a reader at nesting level `depth`. */
  predicate Admits(t: Tree, depth: nat, s: Cursor) {
    LengthsFit(t, s.limits) && Affords(s, depth, Nesting(t), |Flat(t)|, Tags(t))
  }

  predicate AdmitsAll(ms: seq<Member>, end: bytes, depth: nat, s: Cursor) {
    LengthsFitAll(ms, s.limits) && Affords(s, depth, NestingAll(ms), |FlatAll(ms)| + |end|, TagsAll(ms) + 1)
  }

  // ------------------------------------------------ every well-formed value is skipped

  /** Skipping succeeds exactly when the value fits, and then stops right behind it. */
  ghost predicate SkipsValue(t: Tree, depth: nat, s: Cursor, tail: bytes) {
    var o := SkipInner(WireOf(t), depth, s);
    && (o.Done? <==> Admits(t, depth, s))
    && (o.Done? ==> o.next == Past(s, |Flat(t)|, Tags(t), tail))
  }

  ghost predicate SkipsGroup(ms: seq<Member>, end: bytes, depth: nat, s: Cursor, tail: bytes) {
    var o := SkipGroup(depth, s);
    && (o.Done? <==> AdmitsAll(ms, end, depth, s))
    && (o.Done? ==> o.next == Past(s, |FlatAll(ms)| + |end|, TagsAll(ms) + 1, tail))
  }

  lemma ReadVarintOver(raw: bytes, s: Cursor, tail: bytes)
    requires Varint.IsVarint(raw) && |raw| <= Varint.MAX_VARINT_LEN && s.rest == raw + tail
    ensures ReadVarint(s) ==
            if Within(s.limits.maxBytes, s.read + |raw|)
            then Done(Varint.Value(raw) % U64, Past(s, |raw|, 0, tail))
            else Fail(LimitExceeded(MaxBytes), Past(s, |raw|, 0, tail))
  {
    assert s.rest[..|raw|] == raw && s.rest[|raw|..] == tail;
    Varint.DecodeMeaning(s.rest, Varint.Value(raw) % U64, |raw|);
  }

  lemma ReadTagOver(raw: bytes, wire: WireType, s: Cursor, tail: bytes)
    requires IsTagOf(raw, wire) && s.rest == raw + tail
    ensures ReadTag(s).Done? <==>
            Within(s.limits.maxBytes, s.read + |raw|) && Within(s.limits.maxFields, s.fields + 1)
    ensures ReadTag(s).Done? ==> ReadTag(s) == Done(DecodeTag(raw).value.0, Past(s, |raw|, 1, tail))
  {
    TagStable(raw, tail);
    assert s.rest[|raw|..] == tail;
  }

  lemma FixedOver(raw: bytes, s: Cursor, tail: bytes)
    requires s.rest == raw + tail
    ensures ReadFixed(s, |raw|).Done? <==> Within(s.limits.maxBytes, s.read + |raw|)
    ensures ReadFixed(s, |raw|).Done? ==> ReadFixed(s, |raw|).next == Past(s, |raw|, 0, tail)
  {
    assert s.rest[|raw|..] == tail;
  }

  lemma LengthOver(prefix: bytes, body: bytes, depth: nat, s: Cursor, tail: bytes)
    requires WellFormed(LengthTree(prefix, body)) && s.rest == (prefix + body) + tail
    ensures SkipInner(LengthDelimited, depth, s).Done? <==>
            Within(s.limits.maxLengthDelimited, |body|) && Within(s.limits.maxBytes, s.read + |prefix + body|)
    ensures SkipInner(LengthDelimited, depth, s).Done? ==>
              SkipInner(LengthDelimited, depth, s) == Done((), Past(s, |prefix + body|, 0, tail))
  {
    assert s.rest == prefix + (body + tail);
    ReadVarintOver(prefix, s, body + tail);
    assert (body + tail)[|body|..] == tail;
  }

  lemma SkipLeafOver(t: Tree, depth: nat, s: Cursor, tail: bytes)
    requires !t.GroupTree? && WellFormed(t) && s.rest == Flat(t) + tail
    requires InBudget(s) && depth <= s.limits.maxDepth
    ensures SkipsValue(t, depth, s, tail)
  {
    match t {
      case VarintTree(raw) => ReadVarintOver(raw, s, tail);
      case Fixed64Tree(raw) => FixedOver(raw, s, tail);
      case Fixed32Tree(raw) => FixedOver(raw, s, tail);
      case LengthTree(prefix, body) => LengthOver(prefix, body, depth, s, tail);
    }
  }

  /** One turn of the loop in a group. */
  lemma GroupTurn(depth: nat, s: Cursor)
    requires s.rest != [] && ReadTag(s).Done? && ReadTag(s).value.wire != EndGroup
    ensures var o := SkipInner(ReadTag(s).value.wire, depth, ReadTag(s).next);
            SkipGroup(depth, s) == if o.Done? then SkipGroup(depth, o.next) else Fail(o.error, o.at)
  {
  }

  lemma GroupTurnOver(raw: bytes, wire: WireType, depth: nat, s: Cursor, t: Cursor)
    requires IsTagOf(raw, wire) && wire != EndGroup && s.rest == raw + t.rest
    requires t == Past(s, |raw|, 1, t.rest)
    ensures !InBudget(t) ==> SkipGroup(depth, s).Fail?
    ensures InBudget(t) ==>
              var o := SkipInner(wire, depth, t);
              SkipGroup(depth, s) == if o.Done? then SkipGroup(depth, o.next) else Fail(o.error, o.at)
  {
    ReadTagOver(raw, wire, s, t.rest);
    if InBudget(t) { GroupTurn(depth, s); }
  }

  lemma AffordsSplit(s: Cursor, depth: nat, tag: nat, n: nat, n': nat, used: nat, used': nat, tags: nat, tags': nat,
                     t: Cursor, u: Cursor, tail: bytes)
    requires t == Past(s, tag, 1, t.rest) && u == Past(t, used, tags, u.rest)
    ensures Affords(s, depth, Max(n, n'), tag + used + used', 1 + tags + tags') <==>
            Affords(t, depth, n, used, tags) && Affords(u, depth, n', used', tags')
    ensures Past(u, used', tags', tail) == Past(s, tag + used + used', 1 + tags + tags', tail)
  {
  }

  /** A group fits exactly when its first value and then the rest of the group do. */
  lemma {:induction false} AdmitsSplit(ms: seq<Member>, end: bytes, depth: nat, s: Cursor, t: Cursor, u: Cursor,
                                       tail: bytes)
    requires ms != []
    requires t == Past(s, |ms[0].tag|, 1, t.rest)
    requires u == Past(t, |Flat(ms[0].value)|, Tags(ms[0].value), u.rest)
    ensures AdmitsAll(ms, end, depth, s) <==>
            Admits(ms[0].value, depth, t) && AdmitsAll(ms[1..], end, depth, u)
    ensures Past(u, |FlatAll(ms[1..])| + |end|, TagsAll(ms[1..]) + 1, tail) ==
            Past(s, |FlatAll(ms)| + |end|, TagsAll(ms) + 1, tail)
  {
    var v, rest := ms[0].value, ms[1..];
    AffordsSplit(s, depth, |ms[0].tag|, Nesting(v), NestingAll(rest), |Flat(v)|, |FlatAll(rest)| + |end|,
                 Tags(v), TagsAll(rest) + 1, t, u, tail);
  }

  lemma {:induction false} SkipOver(t: Tree, depth: nat, s: Cursor, tail: bytes)
    requires WellFormed(t) && s.rest == Flat(t) + tail
    requires InBudget(s) && depth <= s.limits.maxDepth
    ensures SkipsValue(t, depth, s, tail)
    decreases t
  {
    if t.GroupTree? {
      if depth + 1 <= s.limits.maxDepth {
        SkipGroupOver(t.members, t.end, depth + 1, s, tail);
      }
    } else {
      SkipLeafOver(t, depth, s, tail);
    }
  }

  lemma {:induction false} SkipGroupOver(ms: seq<Member>, end: bytes, depth: nat, s: Cursor, tail: bytes)
    requires WellFormedAll(ms) && IsTagOf(end, EndGroup) && s.rest == (FlatAll(ms) + end) + tail
    requires InBudget(s) && depth <= s.limits.maxDepth
    ensures SkipsGroup(ms, end, depth, s, tail)
    decreases ms
  {
    if ms == [] {
      assert s.rest == end + tail;
      ReadTagOver(end, EndGroup, s, tail);
    } else {
      SkipMembersOver(ms, end, depth, s, tail);
    }
  }

  lemma {:induction false} SkipMembersOver(ms: seq<Member>, end: bytes, depth: nat, s: Cursor, tail: bytes)
    requires ms != []
    requires WellFormedAll(ms) && IsTagOf(end, EndGroup) && s.rest == (FlatAll(ms) + end) + tail
    requires InBudget(s) && depth <= s.limits.maxDepth
    ensures SkipsGroup(ms, end, depth, s, tail)
    decreases ms, 0
  {
    var m := ms[0];
    var after := (FlatAll(ms[1..]) + end) + tail;
    var t := Past(s, |m.tag|, 1, Flat(m.value) + after);
    var u := Past(t, |Flat(m.value)|, Tags(m.value), after);
    Reassociate(m.tag, Flat(m.value), FlatAll(ms[1..]), end, tail);
    GroupTurnOver(m.tag, WireOf(m.value), depth, s, t);
    AdmitsSplit(ms, end, depth, s, t, u, tail);
    if !InBudget(t) {
      assert !Admits(m.value, depth, t);
    } else {
      SkipOver(m.value, depth, t, after);
      if Admits(m.value, depth, t) {
        SkipGroupOver(ms[1..], end, depth, u, tail);
        assert SkipGroup(depth, s) == SkipGroup(depth, u);
      } else {
        assert SkipGroup(depth, s).Fail?;
      }
    }
  }

  lemma Reassociate(tag: bytes, value: bytes, more: bytes, end: bytes, tail: bytes)
    ensures ((tag + (value + more)) + end) + tail == tag + (value + ((more + end) + tail))
  {
  }

  // ------------------------------------------------ whatever is skipped is one well-formed value

  lemma {:induction false} SkipParses(wire: WireType, depth: nat, s: Cursor) returns (t: Tree)
    requires SkipInner(wire, depth, s).Done?
    ensures WellFormed(t) && WireOf(t) == wire
    ensures s.rest == Flat(t) + SkipInner(wire, depth, s).next.rest
    decreases |s.rest|, 1
  {
    var next := SkipInner(wire, depth, s).next;
    match wire {
      case Varint64 =>
        var raw := VarintParses(s);
        t := VarintTree(raw);
      case Fixed64 => t := Fixed64Tree(s.rest[..8]);
      case Fixed32 => t := Fixed32Tree(s.rest[..4]);
      case LengthDelimited =>
        var prefix := VarintParses(s);
        var Done(len, u) := ReadVarint(s);
        t := LengthTree(prefix, u.rest[..len]);
        assert u.rest == u.rest[..len] + u.rest[len..];
        assert prefix + (u.rest[..len] + next.rest) == (prefix + u.rest[..len]) + next.rest;
      case StartGroup =>
        var members, end := GroupParses(depth + 1, s);
        t := GroupTree(members, end);
    }
  }

  lemma VarintParses(s: Cursor) returns (raw: bytes)
    requires ReadVarint(s).Done?
    ensures Varint.IsVarint(raw) && |raw| <= Varint.MAX_VARINT_LEN
    ensures ReadVarint(s).value == Varint.Value(raw) % U64 && s.rest == raw + ReadVarint(s).next.rest
  {
    var (v, n) := Varint.Decode(s.rest).value;
    Varint.DecodeMeaning(s.rest, v, n);
    raw := s.rest[..n];
  }

  lemma {:induction false} GroupParses(depth: nat, s: Cursor) returns (ms: seq<Member>, end: bytes)
    requires SkipGroup(depth, s).Done?
    ensures WellFormedAll(ms) && IsTagOf(end, EndGroup)
    ensures s.rest == (FlatAll(ms) + end) + SkipGroup(depth, s).next.rest
    decreases |s.rest|, 0
  {
    var raw := TagParses(s);
    if ReadTag(s).value.wire == EndGroup {
      ms, end := [], raw;
      assert [] + raw == raw;
    } else {
      var wire, u := ReadTag(s).value.wire, ReadTag(s).next;
      GroupTurn(depth, s);
      var value := SkipParses(wire, depth, u);
      var rest;
      rest, end := GroupParses(depth, SkipInner(wire, depth, u).next);
      ms := [Member(raw, value)] + rest;
      assert ms[1..] == rest;
      Reassociate(raw, Flat(value), FlatAll(rest), end, SkipGroup(depth, s).next.rest);
    }
  }

  lemma TagParses(s: Cursor) returns (raw: bytes)
    requires ReadTag(s).Done?
    ensures IsTagOf(raw, ReadTag(s).value.wire) && s.rest == raw + ReadTag(s).next.rest
  {
    var (tag, n) := DecodeTag(s.rest).value;
    raw := s.rest[..n];
    var (v, k) := Varint.Decode(s.rest).value;
    Varint.DecodeMeaning(s.rest, v, k);
    assert raw[..n] == raw;
    Varint.DecodeMeaning(raw, v, k);
  }

  /**
   * The exact language of `skip`: it succeeds on a cursor exactly when one well-formed value of that wire type
   * stands there and fits the depth, length, byte and tag budgets; it then stops right behind that value.
   */
  lemma SkipLanguage(wire: WireType, s: Cursor, tail: bytes)
    requires InBudget(s) && s.depth <= s.limits.maxDepth
    ensures (Skip(wire, s).Done? && Skip(wire, s).next.rest == tail) <==>
            exists t: Tree :: WellFormed(t) && WireOf(t) == wire && s.rest == Flat(t) + tail && Admits(t, s.depth, s)
  {
    if Skip(wire, s).Done? && Skip(wire, s).next.rest == tail {
      var t := SkipParses(wire, s.depth, s);
      SkipOver(t, s.depth, s, tail);
    }
    forall t: Tree | WellFormed(t) && WireOf(t) == wire && s.rest == Flat(t) + tail && Admits(t, s.depth, s)
      ensures Skip(wire, s).Done? && Skip(wire, s).next.rest == tail
    {
      SkipOver(t, s.depth, s, tail);
    }
  }

  /** Skipping ends where reading the value would have ended. */
  lemma SkipAgreesWithRead(s: Cursor)
    ensures ReadVarint(s).Done? ==> Skip(Varint64, s) == Done((), ReadVarint(s).next)
    ensures ReadFixed32(s).Done? ==> Skip(Fixed32, s) == Done((), ReadFixed32(s).next)
    ensures ReadFixed64(s).Done? ==> Skip(Fixed64, s) == Done((), ReadFixed64(s).next)
    ensures ReadLengthDelimited(s).Done? <==> Skip(LengthDelimited, s).Done?
    ensures ReadLengthDelimited(s).Done? ==> Skip(LengthDelimited, s) == Done((), ReadLengthDelimited(s).next)
  {
  }

  /** Which error a skip ends with: a stray end tag, a group too deep, one that is not closed, a value cut off. */
  lemma Refusals(s: Cursor)
    ensures Skip(EndGroup, s) == Fail(UnexpectedWireType(4), s)
    ensures s.depth + 1 > s.limits.maxDepth ==> Skip(StartGroup, s) == Fail(DepthLimitExceeded, s)
    ensures s.depth + 1 <= s.limits.maxDepth && |s.rest| == 0 ==> Skip(StartGroup, s) == Fail(UnterminatedGroup(0), s)
    ensures |s.rest| < 4 ==> Skip(Fixed32, s) == Fail(UnexpectedEof, s)
    ensures |s.rest| < 8 ==> Skip(Fixed64, s) == Fail(UnexpectedEof, s)
    ensures ReadVarint(s).Done? ==>
              var (len, t) := (ReadVarint(s).value, ReadVarint(s).next);
              && (s.limits.maxLengthDelimited.Some? && len > s.limits.maxLengthDelimited.value ==>
                    Skip(LengthDelimited, s) == Fail(LimitExceeded(MaxLengthDelimited), t)
                    && ReadLengthDelimited(s) == Fail(LimitExceeded(MaxLengthDelimited), t))
              && ((s.limits.maxLengthDelimited.Some? ==> len <= s.limits.maxLengthDelimited.value)
                  && len > |t.rest| && t.pos + len < 0x1_0000_0000_0000_0000 ==>
                    Skip(LengthDelimited, s) == Fail(UnexpectedEof, t)
                    && ReadLengthDelimited(s) == Fail(LengthLimitExceeded(len), t))
  {
    hide ReadVarint;
    if |s.rest| == 0 { assert SkipGroup(s.depth + 1, s) == Fail(UnterminatedGroup(0), s); }
  }
}
