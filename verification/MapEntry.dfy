/** Map entries (packed.rs): two fields of a nested message, kept as the bytes behind their tags. */
module MapEntry {
  import opened Wrappers
  import opened WireBasics
  import opened WireTag
  import opened ReaderSpec
  import opened WireGrammar
  import R = Reader
  import W = Writer
  import Varint

  /**
   * `read_raw_value`. A length-delimited value is taken by moving the position, so only its length prefix counts
   * as read.
   */
  function ReadRawValue(wire: WireType, s: Cursor): (o: Out<bytes>)
    ensures o.Done? ==> |o.next.rest| < |s.rest|
  {
    match wire
    case Varint64 => var v :- ReadVarintRaw(s); Done(v.0.1, v.1)
    case Fixed32 => var v :- ReadFixed32(s); Done(s.rest[..4], v.1)
    case Fixed64 => var v :- ReadFixed64(s); Done(s.rest[..8], v.1)
    case LengthDelimited =>
      var v :- ReadVarint(s);
      var (len, t) := v;
      if !Within(s.limits.maxLengthDelimited, len) then Fail(LimitExceeded(MaxLengthDelimited), t)
      else if len > |t.rest| then Fail(PastEnd(t, len, LengthLimitExceeded(len)), t)
      else Done(s.rest[..|s.rest| - |t.rest| + len], t.(pos := t.pos + len, rest := t.rest[len..]))
    case StartGroup => Fail(UnexpectedWireType(wire.AsU8()), s)
    case EndGroup => Fail(UnexpectedWireType(wire.AsU8()), s)
  }

  datatype Frames = Frames(key: Option<bytes>, value: Option<bytes>)

  /** The match on the field number: the last occurrence wins. */
  function Keep(f: Frames, field: u32, frame: bytes): Frames {
    if field == 1 then f.(key := Some(frame)) else if field == 2 then f.(value := Some(frame)) else f
  }

  /** The loop over the entry body. */
  function ReadFrames(f: Frames, s: Cursor): (o: Out<Frames>)
    decreases |s.rest|
  {
    if s.rest == [] then Done(f, s)
    else
      var t :- ReadTag(s);
      var v :- ReadRawValue(t.0.wire, t.1);
      ReadFrames(Keep(f, t.0.field, v.0), v.1)
  }

  /** `decode_map_entry_frames`, after the tag; a missing value is empty, a missing key is an error. */
  function DecodeMapEntry(s: Cursor): (o: Out<(bytes, bytes)>) {
    var body :- ReadLengthDelimited(s);
    var sub :- Nested(body.1, body.0);
    Entry(ReadFrames(Frames(None, None), sub.0), body.1)
  }

  function Entry(o: Out<Frames>, after: Cursor): Out<(bytes, bytes)> {
    match o
    case Fail(e, _) => Fail(e, after)
    case Done(f, _) =>
      if f.key.None? then Fail(MissingMapKey, after)
      else Done((f.key.value, if f.value.Some? then f.value.value else []), after)
  }

  /** The length-delimited arm of `read_raw_value`. */
  method ReadRawBody(r: R.Reader) returns (res: Result<bytes, Error>)
    requires r.Valid()
    modifies r
    ensures r.Follows(ReadRawValue(LengthDelimited, old(r.At())), res)
  {
    ghost var s := r.At();
    var start := r.pos;
    var v := r.ReadVarint();
    if v.Failure? { return Failure(v.error); }
    var len := v.value;
    if !Within(r.limits.maxLengthDelimited, len) { return Failure(LimitExceeded(MaxLengthDelimited)); }
    if len > |r.buf| - r.pos {
      return Failure(if r.pos + len >= U64 then Overflow else LengthLimitExceeded(len));
    }
    var end := r.pos + len;
    assert r.buf[start..end] == s.rest[..end - start];
    assert r.buf[end..] == r.buf[r.pos..][len..];
    var framed := r.buf[start..end];
    var moved := r.SetPos(end);
    res := match moved case Success(_) => Success(framed) case Failure(e) => Failure(e);
  }

  method ReadRawValueFrom(r: R.Reader, wire: WireType) returns (res: Result<bytes, Error>)
    requires r.Valid()
    modifies r
    ensures r.Follows(ReadRawValue(wire, old(r.At())), res)
  {
    ghost var s := r.At();
    match wire {
      case Varint64 =>
        var v := r.ReadVarintRaw();
        res := if v.Failure? then Failure(v.error) else Success(v.value.1);
      case Fixed32 =>
        var start := r.pos;
        var v := r.ReadFixed32();
        if v.Failure? { return Failure(v.error); }
        assert r.buf[start..start + 4] == s.rest[..4];
        res := Success(r.buf[start..start + 4]);
      case Fixed64 =>
        var start := r.pos;
        var v := r.ReadFixed64();
        if v.Failure? { return Failure(v.error); }
        assert r.buf[start..start + 8] == s.rest[..8];
        res := Success(r.buf[start..start + 8]);
      case LengthDelimited => res := ReadRawBody(r);
      case StartGroup => res := Failure(UnexpectedWireType(wire.AsU8()));
      case EndGroup => res := Failure(UnexpectedWireType(wire.AsU8()));
    }
  }

  /** `decode_map_entry_frames` */
  method DecodeMapEntryFrames(r: R.Reader) returns (res: Result<(bytes, bytes), Error>)
    requires r.Valid()
    modifies r
    ensures r.Follows(DecodeMapEntry(old(r.At())), res)
  {
    hide ReadLengthDelimited, ReadTag, ReadRawValue;
    var body := r.ReadLengthDelimited();
    if body.Failure? { return Failure(body.error); }
    var nested := r.Nested(body.value);
    if nested.Failure? { return Failure(nested.error); }
    var er := nested.value;
    ghost var start, after := er.At(), r.At();
    var frames := Frames(None, None);
    while true
      invariant er.Valid() && r.Valid() && r.At() == after
      invariant ReadFrames(frames, er.At()) == ReadFrames(Frames(None, None), start)
      decreases |er.buf| - er.pos
    {
      var stop := er.IsEmpty();
      if stop { break; }
      var tag := er.ReadTag();
      if tag.Failure? { return Failure(tag.error); }
      var frame := ReadRawValueFrom(er, tag.value.wire);
      if frame.Failure? { return Failure(frame.error); }
      frames := Keep(frames, tag.value.field, frame.value);
    }
    if frames.key.None? { return Failure(MissingMapKey); }
    res := Success((frames.key.value, if frames.value.Some? then frames.value.value else []));
  }

  /** `encode_map_entry`; `key` and `value` are already tagged. */
  method EncodeMapEntry(w: W.Writer, field: u32, key: bytes, value: bytes)
    requires field > 0
    modifies w
    ensures w.buf == old(w.buf) + (EncodeTag(Tag(field, LengthDelimited)) + W.Framed(key + value))
  {
    w.WriteTag(field, LengthDelimited);
    w.WriteLengthDelimited(key + value);
    Assoc(old(w.buf), EncodeTag(Tag(field, LengthDelimited)), W.Framed(key + value));
  }

  // ------------------------------------------------------------------------- theorems

  /** A field of an entry body: its number, and its value as a tree of the wire grammar other than a group. */
  predicate PlainMember(m: Member) {
    && WellFormed(m.value) && !m.value.GroupTree?
    && IsTagOf(m.tag, WireOf(m.value))
  }

  predicate PlainMembers(ms: seq<Member>) {
    forall m :: m in ms ==> PlainMember(m)
  }

  function FieldOf(m: Member): u32
    requires PlainMember(m)
  {
    DecodeTag(m.tag).value.0.field
  }

  /** The frames left by the fields `ms`, on top of `f`. */
  function LastFrames(f: Frames, ms: seq<Member>): Frames
    requires PlainMembers(ms)
    decreases ms
  {
    if ms == [] then f
    else
      assert ms[0] in ms;
      LastFrames(Keep(f, FieldOf(ms[0]), Flat(ms[0].value)), ms[1..])
  }

  /** The last occurrence of field `n` in `ms`, if any. */
  function LastOf(ms: seq<Member>, n: u32): Option<bytes>
    requires PlainMembers(ms)
  {
    if ms == [] then None
    else
      var last := ms[|ms| - 1];
      if FieldOf(last) == n then Some(Flat(last.value)) else LastOf(ms[..|ms| - 1], n)
  }

  lemma RawValueParses(wire: WireType, s: Cursor) returns (t: Tree)
    requires ReadRawValue(wire, s).Done?
    ensures WellFormed(t) && WireOf(t) == wire && !t.GroupTree?
    ensures ReadRawValue(wire, s).value == Flat(t) && s.rest == Flat(t) + ReadRawValue(wire, s).next.rest
  {
    match wire {
      case Varint64 =>
        var raw := VarintParses(s);
        t := VarintTree(raw);
      case Fixed32 => t := Fixed32Tree(s.rest[..4]);
      case Fixed64 => t := Fixed64Tree(s.rest[..8]);
      case LengthDelimited =>
        var prefix := VarintParses(s);
        var Done(len, u) := ReadVarint(s);
        t := LengthTree(prefix, u.rest[..len]);
        assert u.rest == u.rest[..len] + u.rest[len..];
        Assoc(prefix, u.rest[..len], u.rest[len..]);
        assert s.rest[..|prefix| + len] == prefix + u.rest[..len];
    }
  }

  lemma {:induction false} FramesParse(f: Frames, s: Cursor) returns (ms: seq<Member>)
    requires ReadFrames(f, s).Done?
    ensures PlainMembers(ms) && FlatAll(ms) == s.rest
    ensures ReadFrames(f, s).value == LastFrames(f, ms)
    decreases |s.rest|
  {
    ms := [];
    if s.rest != [] {
      hide ReadTag, ReadRawValue, Flat;
      var t := ReadTag(s);
      var v := ReadRawValue(t.value.wire, t.next);
      var raw := TagParses(s);
      TagValueParses(s, raw);
      var tree := RawValueParses(t.value.wire, t.next);
      var rest := FramesParse(Keep(f, t.value.field, v.value), v.next);
      var first := Member(raw, tree);
      ms := [first] + rest;
      assert ms[1..] == rest;
      assert forall m :: m in ms <==> m == first || m in rest;
      assert FieldOf(first) == t.value.field;
    }
  }

  lemma TagValueParses(s: Cursor, raw: bytes)
    requires ReadTag(s).Done? && s.rest == raw + ReadTag(s).next.rest && IsTagOf(raw, ReadTag(s).value.wire)
    ensures DecodeTag(raw).value.0 == ReadTag(s).value
  {
    TagStable(raw, ReadTag(s).next.rest);
  }

  lemma {:induction false} LastFramesSnoc(f: Frames, init: seq<Member>, last: Member)
    requires PlainMembers(init) && PlainMember(last)
    ensures PlainMembers(init + [last])
    ensures LastFrames(f, init + [last]) == Keep(LastFrames(f, init), FieldOf(last), Flat(last.value))
    decreases init
  {
    hide Flat, FieldOf;
    assert forall m :: m in init + [last] <==> m in init || m == last;
    if init == [] {
      assert init + [last] == [last];
      assert [last][1..] == [];
    } else {
      assert (init + [last])[1..] == init[1..] + [last];
      assert init[0] in init;
      LastFramesSnoc(Keep(f, FieldOf(init[0]), Flat(init[0].value)), init[1..], last);
    }
  }

  lemma {:induction false} LastFramesMeaning(ms: seq<Member>)
    requires PlainMembers(ms)
    ensures LastFrames(Frames(None, None), ms) == Frames(LastOf(ms, 1), LastOf(ms, 2))
  {
    if ms != [] {
      hide Flat, FieldOf;
      var init, last := ms[..|ms| - 1], ms[|ms| - 1];
      assert ms == init + [last];
      assert last in ms;
      LastFramesMeaning(init);
      LastFramesSnoc(Frames(None, None), init, last);
    }
  }

  /**
   * Whenever an entry decodes, its body is a list of well-formed non-group fields in any order; the key is the
   * value of the last field 1, exactly as written behind its tag, and the value that of the last field 2, or empty.
   */
  lemma DecodedEntry(s: Cursor) returns (body: bytes, ms: seq<Member>)
    requires DecodeMapEntry(s).Done?
    ensures ReadLengthDelimited(s).Done? && body == ReadLengthDelimited(s).value
    ensures PlainMembers(ms) && FlatAll(ms) == body
    ensures LastOf(ms, 1) == Some(DecodeMapEntry(s).value.0)
    ensures DecodeMapEntry(s).value.1 == if LastOf(ms, 2).Some? then LastOf(ms, 2).value else []
    ensures DecodeMapEntry(s).next == ReadLengthDelimited(s).next
  {
    hide ReadLengthDelimited, ReadFrames, FlatAll, PlainMembers, LastOf;
    body := ReadLengthDelimited(s).value;
    var sub := Nested(ReadLengthDelimited(s).next, body).value;
    ms := FramesParse(Frames(None, None), sub);
    LastFramesMeaning(ms);
  }

  /** A frame read in a fresh reader under `limits` is read completely, and to its own value. */
  ghost predicate Rereads(t: Tree, limits: DecoderLimits)
    requires WellFormed(t)
  {
    var s := Fresh(Flat(t), limits);
    match t
    case VarintTree(raw) => Whole(ReadVarint(s), Varint.Value(raw) % U64)
    case Fixed32Tree(raw) => Whole(ReadFixed(s, 4), FromLittleEndian(raw))
    case Fixed64Tree(raw) => Whole(ReadFixed(s, 8), FromLittleEndian(raw))
    case LengthTree(_, b) => Whole(ReadLengthDelimited(s), b)
    case GroupTree(_, _) => false
  }

  ghost predicate Whole<T>(o: Out<T>, v: T) {
    o.Done? && o.value == v && o.next.rest == []
  }

  lemma FrameRereads(t: Tree, limits: DecoderLimits)
    requires WellFormed(t) && !t.GroupTree?
    requires Within(limits.maxBytes, |Flat(t)|) && Within(limits.maxLengthDelimited, |Flat(t)|)
    ensures Rereads(t, limits)
  {
    var s := Fresh(Flat(t), limits);
    match t {
      case VarintTree(raw) =>
        assert raw + [] == raw;
        ReadVarintOver(raw, s, []);
      case Fixed32Tree(raw) => assert raw[..4] == raw;
      case Fixed64Tree(raw) => assert raw[..8] == raw;
      case LengthTree(prefix, b) =>
        ReadVarintOver(prefix, s, b);
        assert b[..|b|] == b;
    }
  }

  lemma {:induction false} MemberNoLonger(ms: seq<Member>, m: Member)
    requires m in ms
    ensures |Flat(m.value)| <= |FlatAll(ms)|
  {
    hide Flat;
    if m != ms[0] { MemberNoLonger(ms[1..], m); }
  }

  lemma {:induction false} LastIsMember(ms: seq<Member>, n: u32) returns (m: Member)
    requires PlainMembers(ms) && LastOf(ms, n).Some?
    ensures m in ms && PlainMember(m) && LastOf(ms, n) == Some(Flat(m.value))
  {
    hide Flat, FieldOf, PlainMember;
    m := ms[|ms| - 1];
    assert m in ms;
    if FieldOf(m) != n { m := LastIsMember(ms[..|ms| - 1], n); }
  }

  /** What is kept of a field is within the limits that the entry around it has passed. */
  lemma KeptRereads(s: Cursor, ms: seq<Member>, n: u32) returns (t: Tree)
    requires ReadLengthDelimited(s).Done? && FlatAll(ms) == ReadLengthDelimited(s).value
    requires PlainMembers(ms) && LastOf(ms, n).Some?
    ensures WellFormed(t) && LastOf(ms, n) == Some(Flat(t)) && Rereads(t, s.limits)
  {
    var m := LastIsMember(ms, n);
    MemberNoLonger(ms, m);
    t := m.value;
    FrameRereads(t, s.limits);
  }

  /**
   * Whatever is returned re-reads: the key, and the value when there is one, are each read completely and to their
   * own value in a fresh reader under the limits of the reader they came from.
   */
  lemma ReturnedFramesReread(s: Cursor) returns (key: Tree, value: Option<Tree>)
    requires DecodeMapEntry(s).Done?
    ensures WellFormed(key) && DecodeMapEntry(s).value.0 == Flat(key) && Rereads(key, s.limits)
    ensures if value.Some?
            then WellFormed(value.value) && DecodeMapEntry(s).value.1 == Flat(value.value)
                 && Rereads(value.value, s.limits)
            else DecodeMapEntry(s).value.1 == []
  {
    hide ReadLengthDelimited, DecodeMapEntry, FlatAll, LastOf, PlainMembers, Rereads;
    var body, ms := DecodedEntry(s);
    key := KeptRereads(s, ms, 1);
    value := None;
    if LastOf(ms, 2).Some? {
      var t := KeptRereads(s, ms, 2);
      value := Some(t);
    }
  }

  // ------------------------------------------------------ every such entry is accepted

  lemma RawValueOver(t: Tree, s: Cursor, tail: bytes)
    requires WellFormed(t) && !t.GroupTree? && s.rest == Flat(t) + tail
    requires Within(s.limits.maxBytes, s.read + |Flat(t)|) && Within(s.limits.maxLengthDelimited, |Flat(t)|)
    ensures var o := ReadRawValue(WireOf(t), s);
            && o.Done? && o.value == Flat(t) && o.next.rest == tail
            && o.next.limits == s.limits && o.next.fields == s.fields && o.next.read <= s.read + |Flat(t)|
  {
    match t {
      case VarintTree(raw) =>
        assert s.rest[..|raw|] == raw && s.rest[|raw|..] == tail;
        Varint.DecodeMeaning(s.rest, Varint.Value(raw) % U64, |raw|);
      case Fixed32Tree(raw) => assert s.rest[..4] == raw && s.rest[4..] == tail;
      case Fixed64Tree(raw) => assert s.rest[..8] == raw && s.rest[8..] == tail;
      case LengthTree(prefix, b) =>
        Assoc(prefix, b, tail);
        ReadVarintOver(prefix, s, b + tail);
        assert (b + tail)[|b|..] == tail;
        assert s.rest[..|prefix + b|] == prefix + b;
    }
  }

  ghost predicate FramesRead(f: Frames, ms: seq<Member>, s: Cursor)
    requires PlainMembers(ms)
  {
    var o := ReadFrames(f, s);
    && (o.Done? <==> Within(s.limits.maxFields, s.fields + |ms|))
    && (o.Done? ==> o.value == LastFrames(f, ms))
  }

  /** One turn of the loop. */
  lemma FramesTurn(f: Frames, s: Cursor)
    requires s.rest != [] && ReadTag(s).Done?
    requires ReadRawValue(ReadTag(s).value.wire, ReadTag(s).next).Done?
    ensures var (tag, v) := (ReadTag(s).value, ReadRawValue(ReadTag(s).value.wire, ReadTag(s).next));
            ReadFrames(f, s) == ReadFrames(Keep(f, tag.field, v.value), v.next)
  {
    hide ReadTag, ReadRawValue, Keep;
  }

  lemma FramesStop(f: Frames, s: Cursor)
    requires s.rest != [] && ReadTag(s).Fail?
    ensures ReadFrames(f, s).Fail?
  {
    hide ReadTag, ReadRawValue, Keep;
  }

  lemma FirstKept(f: Frames, ms: seq<Member>)
    requires PlainMembers(ms) && ms != []
    ensures PlainMember(ms[0]) && PlainMembers(ms[1..])
    ensures LastFrames(f, ms) == LastFrames(Keep(f, FieldOf(ms[0]), Flat(ms[0].value)), ms[1..])
  {
    hide PlainMember, FieldOf, Flat;
    assert ms[0] in ms;
  }

  /** `n` more bytes are within the byte and length limits, and the tags so far within theirs. */
  predicate Room(s: Cursor, n: nat) {
    && Within(s.limits.maxFields, s.fields)
    && Within(s.limits.maxBytes, s.read + n) && Within(s.limits.maxLengthDelimited, n)
  }

  /** One field is read exactly when its tag is within the field limit; `u` is the cursor behind it. */
  lemma FieldOver(f: Frames, m: Member, s: Cursor, more: bytes) returns (u: Cursor)
    requires PlainMember(m) && s.rest == m.tag + (Flat(m.value) + more) && Room(s, |s.rest|)
    ensures u.rest == more && u.limits == s.limits && u.fields == s.fields + 1
    ensures if Within(s.limits.maxFields, s.fields + 1)
            then Room(u, |more|) && ReadFrames(f, s) == ReadFrames(Keep(f, FieldOf(m), Flat(m.value)), u)
            else ReadFrames(f, s).Fail?
  {
    hide ReadTag, ReadRawValue, ReadFrames, Flat, IsTagOf, FieldOf, Keep;
    TagNonempty(m);
    ReadTagOver(m.tag, WireOf(m.value), s, Flat(m.value) + more);
    FieldIs(m);
    u := s.(rest := more, fields := s.fields + 1);
    if ReadTag(s).Done? {
      RawValueOver(m.value, ReadTag(s).next, more);
      FramesTurn(f, s);
      u := ReadRawValue(WireOf(m.value), ReadTag(s).next).next;
    } else {
      FramesStop(f, s);
    }
  }

  /** A body within the byte and length limits is read exactly when its fields are within the field limit. */
  lemma {:induction false} FramesOver(f: Frames, ms: seq<Member>, s: Cursor)
    requires PlainMembers(ms) && s.rest == FlatAll(ms) && Room(s, |s.rest|)
    ensures FramesRead(f, ms, s)
    decreases ms
  {
    if ms != [] {
      hide ReadFrames, Flat, FieldOf, PlainMembers, PlainMember, LastFrames, Keep, Room;
      var (m, rest) := (ms[0], ms[1..]);
      FirstKept(f, ms);
      var u := FieldOver(f, m, s, FlatAll(rest));
      if Within(s.limits.maxFields, s.fields + 1) {
        FramesOver(Keep(f, FieldOf(m), Flat(m.value)), rest, u);
      }
    }
  }

  lemma TagNonempty(m: Member)
    requires PlainMember(m)
    ensures |m.tag| > 0
  {
  }

  lemma FieldIs(m: Member)
    requires PlainMember(m)
    ensures FieldOf(m) == DecodeTag(m.tag).value.0.field && DecodeTag(m.tag).value.0.wire == WireOf(m.value)
  {
  }

  /** What the entry of the fields `ms`, framed by `prefix`, asks of a reader. */
  predicate EntryFits(s: Cursor, prefix: bytes, ms: seq<Member>)
    requires PlainMembers(ms)
  {
    && Within(s.limits.maxLengthDelimited, |FlatAll(ms)|)
    && Within(s.limits.maxBytes, s.read + |prefix| + |FlatAll(ms)|)
    && s.depth + 1 <= s.limits.maxDepth
    && Within(s.limits.maxFields, |ms|)
    && LastOf(ms, 1).Some?
  }

  /**
   * The other half: an entry of any non-group fields in any order is accepted exactly when it fits the limits and has
   * a field 1, and gives the last field 1 and the last field 2.
   */
  lemma EntryAccepted(s: Cursor, prefix: bytes, ms: seq<Member>, tail: bytes)
    requires PlainMembers(ms) && WellFormed(LengthTree(prefix, FlatAll(ms)))
    requires s.rest == (prefix + FlatAll(ms)) + tail
    ensures var o := DecodeMapEntry(s);
            && (o.Done? <==> EntryFits(s, prefix, ms))
            && (o.Done? ==>
                  && o.value == (LastOf(ms, 1).value, if LastOf(ms, 2).Some? then LastOf(ms, 2).value else [])
                  && o.next == Past(s, |prefix| + |FlatAll(ms)|, 0, tail))
  {
    hide ReadFrames, FlatAll, PlainMembers, LastOf, LastFrames;
    var body := FlatAll(ms);
    ReadBodyOver(prefix, body, s, tail);
    LastFramesMeaning(ms);
    if ReadLengthDelimited(s).Done? {
      hide ReadLengthDelimited;
      FramesOver(Frames(None, None), ms, Cursor(0, body, s.depth + 1, 0, 0, s.limits));
    }
  }

  lemma ReadBodyOver(prefix: bytes, body: bytes, s: Cursor, tail: bytes)
    requires WellFormed(LengthTree(prefix, body)) && s.rest == (prefix + body) + tail
    ensures ReadLengthDelimited(s).Done? <==>
            Within(s.limits.maxLengthDelimited, |body|) && Within(s.limits.maxBytes, s.read + |prefix| + |body|)
    ensures ReadLengthDelimited(s).Done? ==>
              ReadLengthDelimited(s) == Done(body, Past(s, |prefix| + |body|, 0, tail))
  {
    Assoc(prefix, body, tail);
    ReadVarintOver(prefix, s, body + tail);
    assert (body + tail)[..|body|] == body && (body + tail)[|body|..] == tail;
  }

  // ------------------------------------------------------------------------ round trip

  /** A field as `encode_map_entry` is given it: a tag and a value. */
  function Tagged(n: u32, t: Tree): Member {
    Member(EncodeTag(Tag(n, WireOf(t))), t)
  }

  function Written(m: Member): bytes {
    m.tag + Flat(m.value)
  }

  lemma TaggedIsPlain(n: u32, t: Tree)
    requires WellFormed(t) && !t.GroupTree? && 1 <= n <= MAX_FIELD_NUMBER
    ensures PlainMember(Tagged(n, t)) && FieldOf(Tagged(n, t)) == n
  {
    hide Flat, EncodeTag, DecodeTag;
    var tag := Tag(n, WireOf(t));
    assert EncodeTag(tag) + [] == EncodeTag(tag);
    TagRoundTrip(tag, []);
  }

  /** A key and a value written by `encode_map_entry` come back as the bytes behind their tags, limits permitting. */
  lemma MapEntryRoundTrip(key: Tree, value: Tree, s: Cursor, tail: bytes)
    requires WellFormed(key) && !key.GroupTree? && WellFormed(value) && !value.GroupTree?
    requires var body := Written(Tagged(1, key)) + Written(Tagged(2, value));
             |body| < U64 && s.rest == W.Framed(body) + tail
    ensures var (body, o) := (Written(Tagged(1, key)) + Written(Tagged(2, value)), DecodeMapEntry(s));
            && (o.Done? <==>
                && Within(s.limits.maxLengthDelimited, |body|)
                && Within(s.limits.maxBytes, s.read + |W.Framed(body)|)
                && s.depth + 1 <= s.limits.maxDepth && Within(s.limits.maxFields, 2))
            && (o.Done? ==> o.value == (Flat(key), Flat(value)) && o.next == Past(s, |W.Framed(body)|, 0, tail))
  {
    hide Flat, EncodeTag, DecodeMapEntry, Varint.Encode, FieldOf, Tagged, FlatAll, Written, PlainMember, PlainMembers,
         WellFormed, LastOf;
    var (k, v) := (Tagged(1, key), Tagged(2, value));
    TaggedIsPlain(1, key);
    TaggedIsPlain(2, value);
    TaggedParts(1, key);
    TaggedParts(2, value);
    TwoFlat(k, v);
    TwoLast(k, v);
    FramedPrefix(FlatAll([k, v]));
    EntryAccepted(s, Varint.Encode(|FlatAll([k, v])|), [k, v], tail);
  }

  lemma TaggedParts(n: u32, t: Tree)
    ensures Tagged(n, t).value == t
  {
  }

  lemma TwoFlat(k: Member, v: Member)
    ensures FlatAll([k, v]) == Written(k) + Written(v)
  {
    hide Flat;
    assert [k, v][1..] == [v] && [v][1..] == [];
    assert FlatAll([v]) == v.tag + (Flat(v.value) + []);
    assert Flat(v.value) + [] == Flat(v.value);
    Assoc(k.tag, Flat(k.value), Written(v));
  }

  lemma TwoLast(k: Member, v: Member)
    requires PlainMember(k) && PlainMember(v) && FieldOf(k) == 1 && FieldOf(v) == 2
    ensures PlainMembers([k, v])
    ensures LastOf([k, v], 1) == Some(Flat(k.value)) && LastOf([k, v], 2) == Some(Flat(v.value))
  {
    hide Flat, FieldOf, PlainMember;
    assert [k, v][..1] == [k];
  }

  lemma FramedPrefix(body: bytes)
    requires |body| < U64
    ensures WellFormed(LengthTree(Varint.Encode(|body|), body))
  {
    var raw := Varint.Encode(|body|);
    Varint.EncodeFits(|body|);
    assert raw + [] == raw && raw[..|raw|] == raw;
    Varint.RoundTrip(|body|, []);
    Varint.DecodeMeaning(raw, |body|, |raw|);
  }
}
