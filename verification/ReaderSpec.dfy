/**
 * What every `Reader` operation (reader.rs) does to a cursor, as functions. `rest` is the unread part of the
 * buffer, so a cursor says nothing about bytes already behind it. The class `Reader` is proved against these.
 */
module ReaderSpec {
  import opened WireBasics
  import opened WireTag
  import Utf8
  import Varint

  datatype Cursor = Cursor(
    pos: nat, rest: bytes, depth: nat, fields: nat, read: nat, limits: DecoderLimits)

  /** The outcome of an operation, with the cursor it leaves behind either way. */
  datatype Out<+T> = Done(value: T, next: Cursor) | Fail(error: Error, at: Cursor)
  {
    predicate IsFailure() { Fail? }

    function PropagateFailure<U>(): Out<U>
      requires Fail?
    {
      Fail(error, at)
    }

    function Extract(): (T, Cursor)
      requires Done?
    {
      (value, next)
    }
  }

  function Fresh(buf: bytes, limits: DecoderLimits): Cursor {
    Cursor(0, buf, 0, 0, 0, limits)
  }

  /** `t` was reached from `s` by reading forward. */
  predicate Onward(s: Cursor, t: Cursor) {
    && t.depth == s.depth && t.limits == s.limits
    && s.pos <= t.pos && s.fields <= t.fields && s.read <= t.read
    && |t.rest| == |s.rest| - (t.pos - s.pos)
  }

  predicate InBudget(s: Cursor) {
    Within(s.limits.maxBytes, s.read) && Within(s.limits.maxFields, s.fields)
  }

  /** The cursor past `used` bytes and `tags` tags, with `tail` left. */
  function Past(s: Cursor, used: nat, tags: nat, tail: bytes): Cursor {
    Cursor(s.pos + used, tail, s.depth, s.fields + tags, s.read + used, s.limits)
  }

  function Eat(s: Cursor, n: nat): (t: Cursor)
    requires n <= |s.rest|
    ensures Onward(s, t)
  {
    s.(pos := s.pos + n, rest := s.rest[n..], read := s.read + n)
  }

  /** The error for `n` more bytes than there are: `pos + n` is computed first and may trap. */
  function PastEnd(s: Cursor, n: nat, e: Error): Error {
    if s.pos + n >= U64 then Overflow else e
  }

  function Advance(s: Cursor, n: nat): (o: Out<()>)
    ensures o.Done? ==> n <= |s.rest| && o.next == Eat(s, n) && Within(s.limits.maxBytes, o.next.read)
  {
    if n > |s.rest| then Fail(PastEnd(s, n, UnexpectedEof), s)
    else if !Within(s.limits.maxBytes, s.read + n) then Fail(LimitExceeded(MaxBytes), Eat(s, n))
    else Done((), Eat(s, n))
  }

  function ReadVarint(s: Cursor): (o: Out<u64>)
    ensures o.Done? ==> Onward(s, o.next) && |o.next.rest| < |s.rest|
  {
    match Varint.Decode(s.rest)
    case Failure(e) => Fail(e, s)
    case Success((v, n)) => var a :- Advance(s, n); Done(v, a.1)
  }

  /** The value together with the bytes it took. */
  function ReadVarintRaw(s: Cursor): (o: Out<(u64, bytes)>)
    ensures o.Done? ==> Onward(s, o.next) && |o.next.rest| < |s.rest|
  {
    match Varint.Decode(s.rest)
    case Failure(e) => Fail(e, s)
    case Success((v, n)) => var a :- Advance(s, n); Done((v, s.rest[..n]), a.1)
  }

  function ReadTag(s: Cursor): (o: Out<Tag>)
    ensures o.Done? ==> Onward(s, o.next) && |o.next.rest| < |s.rest| && o.value.field > 0
    ensures o.Done? ==> o.next.fields == s.fields + 1 && InBudget(o.next)
  {
    match DecodeTag(s.rest)
    case Failure(e) => Fail(e, s)
    case Success((tag, n)) =>
      var a :- Advance(s, n);
      var t := a.1.(fields := s.fields + 1);
      if Within(s.limits.maxFields, t.fields) then Done(tag, t) else Fail(LimitExceeded(MaxFields), t)
  }

  function ReadLengthDelimited(s: Cursor): (o: Out<bytes>)
    ensures o.Done? ==> Onward(s, o.next) && |o.next.rest| + |o.value| < |s.rest|
  {
    var v :- ReadVarint(s);
    var (len, t) := v;
    if !Within(s.limits.maxLengthDelimited, len) then Fail(LimitExceeded(MaxLengthDelimited), t)
    else if len > |t.rest| then Fail(PastEnd(t, len, LengthLimitExceeded(len)), t)
    else var a :- Advance(t, len); Done(t.rest[..len], a.1)
  }

  function ReadFixed(s: Cursor, n: nat): (o: Out<nat>)
    ensures o.Done? ==> Onward(s, o.next) && |o.next.rest| == |s.rest| - n
  {
    if n > |s.rest| then Fail(UnexpectedEof, s)
    else var a :- Advance(s, n); Done(FromLittleEndian(s.rest[..n]), a.1)
  }

  function ReadFixed32(s: Cursor): (o: Out<u32>)
    ensures o.Done? ==> Onward(s, o.next) && |o.next.rest| == |s.rest| - 4
  {
    FixedBound(s.rest, 4);
    var v :- ReadFixed(s, 4);
    Done(v.0, v.1)
  }

  function ReadFixed64(s: Cursor): (o: Out<u64>)
    ensures o.Done? ==> Onward(s, o.next) && |o.next.rest| == |s.rest| - 8
  {
    FixedBound(s.rest, 8);
    var v :- ReadFixed(s, 8);
    Done(v.0, v.1)
  }

  lemma FixedBound(rest: bytes, n: nat)
    ensures |rest| >= n ==> FromLittleEndian(rest[..n]) < Pow256(n)
    ensures Pow256(4) == U32 && Pow256(8) == U64
  {
    Pow256Values();
    if |rest| >= n { LittleEndianBound(rest[..n]); }
  }

  function ReadString(s: Cursor): (o: Out<Utf8.Str>)
    ensures o.Done? ==> Onward(s, o.next) && |o.next.rest| < |s.rest|
  {
    var b :- ReadLengthDelimited(s);
    if !Within(s.limits.maxStringLen, |b.0|) then Fail(LimitExceeded(MaxStringLen), b.1)
    else if !Utf8.IsUtf8(b.0) then Fail(Utf8Error(Utf8.ValidUpTo(b.0)), b.1)
    else Done(b.0, b.1)
  }

  /** The cursor of `Reader::nested(body)`; the value of the outcome is the sub-cursor. */
  function Nested(s: Cursor, body: bytes): (o: Out<Cursor>)
    ensures o.Done? ==> o.next == s && o.value.rest == body
  {
    if s.depth + 1 > s.limits.maxDepth then Fail(DepthLimitExceeded, s)
    else Done(Cursor(0, body, s.depth + 1, 0, 0, s.limits), s)
  }

  /** `skip_inner` */
  function SkipInner(wire: WireType, depth: nat, s: Cursor): (o: Out<()>)
    ensures o.Done? ==> Onward(s, o.next) && |o.next.rest| < |s.rest|
    decreases |s.rest|, 1
  {
    match wire
    case Varint64 => var v :- ReadVarint(s); Done((), v.1)
    case Fixed64 => var v :- ReadFixed64(s); Done((), v.1)
    case Fixed32 => var v :- ReadFixed32(s); Done((), v.1)
    case LengthDelimited =>
      var v :- ReadVarint(s);
      if !Within(s.limits.maxLengthDelimited, v.0) then Fail(LimitExceeded(MaxLengthDelimited), v.1)
      else Advance(v.1, v.0)
    case StartGroup =>
      if depth + 1 > s.limits.maxDepth then Fail(DepthLimitExceeded, s)
      else SkipGroup(depth + 1, s)
    case EndGroup => Fail(UnexpectedWireType(4), s)
  }

  /** The loop of `skip_inner` inside a group. */
  function SkipGroup(childDepth: nat, s: Cursor): (o: Out<()>)
    ensures o.Done? ==> Onward(s, o.next) && |o.next.rest| < |s.rest|
    decreases |s.rest|, 0
  {
    if s.rest == [] then Fail(UnterminatedGroup(0), s)
    else
      var t :- ReadTag(s);
      if t.0.wire == EndGroup then Done((), t.1)
      else
        var v :- SkipInner(t.0.wire, childDepth, t.1);
        SkipGroup(childDepth, v.1)
  }

  function Skip(wire: WireType, s: Cursor): (o: Out<()>)
    ensures o.Done? ==> Onward(s, o.next) && |o.next.rest| < |s.rest|
  {
    SkipInner(wire, s.depth, s)
  }

  // ------------------------------------------------ reading in another place
  //
  // A successful operation reads the same thing, and stops at the same place, when more input follows and when
  // it starts with other counters, as long as the shifted counters stay within budget.

  function Carry(s: Cursor, t: Cursor, s2: Cursor, tail: bytes): (t2: Cursor)
    requires Onward(s, t)
  {
    Cursor(s2.pos + (t.pos - s.pos), t.rest + tail, s2.depth,
           s2.fields + (t.fields - s.fields), s2.read + (t.read - s.read), s2.limits)
  }

  predicate Elsewhere(s: Cursor, s2: Cursor, tail: bytes) {
    s2.rest == s.rest + tail && s2.limits == s.limits && s2.depth == s.depth
  }

  lemma AdvanceElsewhere(s: Cursor, n: nat, s2: Cursor, tail: bytes)
    requires Elsewhere(s, s2, tail) && Advance(s, n).Done? && InBudget(Carry(s, Advance(s, n).next, s2, tail))
    ensures Advance(s2, n) == Done((), Carry(s, Advance(s, n).next, s2, tail))
  {
    assert (s.rest + tail)[n..] == s.rest[n..] + tail;
  }

  lemma ReadVarintElsewhere(s: Cursor, s2: Cursor, tail: bytes)
    requires Elsewhere(s, s2, tail) && ReadVarint(s).Done? && InBudget(Carry(s, ReadVarint(s).next, s2, tail))
    ensures ReadVarint(s2) == Done(ReadVarint(s).value, Carry(s, ReadVarint(s).next, s2, tail))
  {
    Varint.DecodeStable(s.rest, tail);
    AdvanceElsewhere(s, Varint.Decode(s.rest).value.1, s2, tail);
  }

  lemma ReadTagElsewhere(s: Cursor, s2: Cursor, tail: bytes)
    requires Elsewhere(s, s2, tail) && ReadTag(s).Done? && InBudget(Carry(s, ReadTag(s).next, s2, tail))
    ensures ReadTag(s2) == Done(ReadTag(s).value, Carry(s, ReadTag(s).next, s2, tail))
  {
    TagStable(s.rest, tail);
    var n := DecodeTag(s.rest).value.1;
    assert InBudget(Carry(s, Eat(s, n), s2, tail));
    AdvanceElsewhere(s, n, s2, tail);
  }

  lemma ReadLengthDelimitedElsewhere(s: Cursor, s2: Cursor, tail: bytes)
    requires Elsewhere(s, s2, tail) && ReadLengthDelimited(s).Done?
    requires InBudget(Carry(s, ReadLengthDelimited(s).next, s2, tail))
    ensures ReadLengthDelimited(s2) ==
            Done(ReadLengthDelimited(s).value, Carry(s, ReadLengthDelimited(s).next, s2, tail))
  {
    var Done(len, t) := ReadVarint(s);
    ReadVarintElsewhere(s, s2, tail);
    var t2 := Carry(s, t, s2, tail);
    AdvanceElsewhere(t, len, t2, tail);
    assert t2.rest[..len] == t.rest[..len];
  }

  lemma ReadFixedElsewhere(s: Cursor, n: nat, s2: Cursor, tail: bytes)
    requires Elsewhere(s, s2, tail) && ReadFixed(s, n).Done? && InBudget(Carry(s, ReadFixed(s, n).next, s2, tail))
    ensures ReadFixed(s2, n) == Done(ReadFixed(s, n).value, Carry(s, ReadFixed(s, n).next, s2, tail))
  {
    AdvanceElsewhere(s, n, s2, tail);
    assert s2.rest[..n] == s.rest[..n];
  }

  lemma ReadStringElsewhere(s: Cursor, s2: Cursor, tail: bytes)
    requires Elsewhere(s, s2, tail) && ReadString(s).Done? && InBudget(Carry(s, ReadString(s).next, s2, tail))
    ensures ReadString(s2) == Done(ReadString(s).value, Carry(s, ReadString(s).next, s2, tail))
  {
    ReadLengthDelimitedElsewhere(s, s2, tail);
  }

  lemma SkipLengthElsewhere(depth: nat, s: Cursor, s2: Cursor, tail: bytes)
    requires Elsewhere(s, s2, tail) && SkipInner(LengthDelimited, depth, s).Done?
    requires InBudget(Carry(s, SkipInner(LengthDelimited, depth, s).next, s2, tail))
    ensures SkipInner(LengthDelimited, depth, s2)
            == Done((), Carry(s, SkipInner(LengthDelimited, depth, s).next, s2, tail))
  {
    hide ReadVarint, SkipGroup;
    var Done(len, t) := ReadVarint(s);
    ReadVarintElsewhere(s, s2, tail);
    AdvanceElsewhere(t, len, Carry(s, t, s2, tail), tail);
  }

  lemma {:induction false} SkipInnerElsewhere(wire: WireType, depth: nat, s: Cursor, s2: Cursor, tail: bytes)
    requires Elsewhere(s, s2, tail) && SkipInner(wire, depth, s).Done?
    requires InBudget(Carry(s, SkipInner(wire, depth, s).next, s2, tail))
    ensures SkipInner(wire, depth, s2) == Done((), Carry(s, SkipInner(wire, depth, s).next, s2, tail))
    decreases |s.rest|, 1
  {
    hide ReadVarint, ReadFixed, SkipGroup;
    match wire {
      case Varint64 => ReadVarintElsewhere(s, s2, tail);
      case Fixed64 => ReadFixedElsewhere(s, 8, s2, tail);
      case Fixed32 => ReadFixedElsewhere(s, 4, s2, tail);
      case LengthDelimited => SkipLengthElsewhere(depth, s, s2, tail);
      case StartGroup => SkipGroupElsewhere(depth + 1, s, s2, tail);
      case EndGroup =>
    }
  }

  lemma {:induction false} SkipGroupElsewhere(childDepth: nat, s: Cursor, s2: Cursor, tail: bytes)
    requires Elsewhere(s, s2, tail) && SkipGroup(childDepth, s).Done?
    requires InBudget(Carry(s, SkipGroup(childDepth, s).next, s2, tail))
    ensures SkipGroup(childDepth, s2) == Done((), Carry(s, SkipGroup(childDepth, s).next, s2, tail))
    decreases |s.rest|, 0
  {
    hide ReadTag, SkipInner;
    var Done(tag, t) := ReadTag(s);
    ReadTagElsewhere(s, s2, tail);
    var t2 := Carry(s, t, s2, tail);
    if tag.wire != EndGroup {
      var u := SkipInner(tag.wire, childDepth, t).next;
      SkipInnerElsewhere(tag.wire, childDepth, t, t2, tail);
      SkipGroupElsewhere(childDepth, u, Carry(t, u, t2, tail), tail);
    }
  }
}
