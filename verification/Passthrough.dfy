/** Unknown fields pass through: what is stored, re-emitted and stored again is the same set. */
module Passthrough {
  import opened Wrappers
  import opened WireBasics
  import opened WireTag
  import opened ReaderSpec
  import opened UnknownFields
  import G = WireGrammar
  import RT = WireRoundTrip
  import Varint

  /** The field number a reader finds where `r` was written: its low 29 bits. */
  function Low(r: Record): Record {
    r.(field := r.field % 0x2000_0000)
  }

  function LowAll(rs: seq<Record>): (out: seq<Record>)
    ensures |out| == |rs| && forall i :: 0 <= i < |rs| ==> out[i] == Low(rs[i])
  {
    if rs == [] then [] else [Low(rs[0])] + LowAll(rs[1..])
  }

  predicate InRange(r: Record) {
    1 <= r.field <= MAX_FIELD_NUMBER
  }

  predicate AllInRange(rs: seq<Record>) {
    forall r :: r in rs ==> InRange(r)
  }

  predicate BodyFits(r: Record, limits: DecoderLimits) {
    r.value.UnknownLength? ==> |r.value.body| < U64 && Within(limits.maxLengthDelimited, |r.value.body|)
  }

  predicate BodiesFit(rs: seq<Record>, limits: DecoderLimits) {
    forall r :: r in rs ==> BodyFits(r, limits)
  }

  // ----------------------------------------------------------- one record, there and back

  lemma ReadValueEncoded(v: UnknownValue, s: Cursor, tail: bytes)
    requires s.rest == EncodeValue(v) + tail && BodyFits(Record(1, v), s.limits)
    requires Within(s.limits.maxBytes, s.read + |EncodeValue(v)|)
    ensures ReadValue(WireOf(v), s) == Done(v, Past(s, |EncodeValue(v)|, 0, tail))
  {
    hide ReadVarint, ReadFixed32, ReadFixed64, ReadLengthDelimited;
    match v {
      case UnknownVarint(x) => RT.ReadVarintEncoded(x, s, tail);
      case UnknownFixed32(x) => RT.ReadFixed32Encoded(x, s, tail);
      case UnknownFixed64(x) => RT.ReadFixed64Encoded(x, s, tail);
      case UnknownLength(b) => RT.ReadFramed(b, s, tail);
    }
  }

  lemma LowTag(r: Record)
    ensures EncodeTag(Tag(r.field, WireOf(r.value))) == EncodeTag(Tag(Low(r).field, WireOf(r.value)))
    ensures EncodeRecord(Low(r)) == EncodeRecord(r)
  {
    hide Raw, Varint.Encode, EncodeValue;
    var a, b := Tag(r.field, WireOf(r.value)), Tag(Low(r).field, WireOf(r.value));
    RawMeaning(a);
    RawMeaning(b);
    DivMod(Raw(a), Raw(b));
  }

  lemma DivMod(a: nat, b: nat)
    requires a / 8 == b / 8 && a % 8 == b % 8
    ensures a == b
  {
  }

  /** Where `r` was written a record is read exactly when the low bits are not all zero, and then it is `Low(r)`. */
  lemma ReadRecordEncoded(r: Record, s: Cursor, tail: bytes)
    requires s.rest == EncodeRecord(r) + tail && BodyFits(r, s.limits)
    requires Within(s.limits.maxBytes, s.read + |EncodeRecord(r)|) && Within(s.limits.maxFields, s.fields + 1)
    ensures Low(r).field == 0 ==> ReadRecord(s).Fail?
    ensures Low(r).field != 0 ==> ReadRecord(s) == Done(Low(r), Past(s, |EncodeRecord(r)|, 1, tail))
  {
    hide ReadValue;
    var wire := WireOf(r.value);
    var tag, body := EncodeTag(Tag(r.field, wire)), EncodeValue(r.value);
    assert s.rest == tag + (body + tail);
    LowTag(r);
    if Low(r).field == 0 {
      ZeroTag(Tag(r.field, wire), body + tail);
    } else {
      RT.ReadTagEncoded(Tag(Low(r).field, wire), s, body + tail);
      ReadValueEncoded(r.value, Past(s, |tag|, 1, body + tail), tail);
    }
  }

  lemma ZeroTag(tag: Tag, tail: bytes)
    requires tag.field % 0x2000_0000 == 0
    ensures DecodeTag(EncodeTag(tag) + tail).Failure?
  {
    Varint.RoundTrip(Raw(tag), tail);
    RawMeaning(tag);
  }

  // ------------------------------------------------------------------- whole streams

  predicate Roomy(rs: seq<Record>, s: Cursor, total: nat) {
    && Within(s.limits.maxBytes, s.read + |EncodeAll(rs)|)
    && Within(s.limits.maxFields, s.fields + |rs|)
    && Within(s.limits.maxUnknownBytes, total + |EncodeAll(rs)|)
  }

  /** The outcome of collecting what was emitted for `rs`. */
  ghost predicate CollectsLow(rs: seq<Record>, s: Cursor, total: nat) {
    var o := Collect(s, total);
    if forall r :: r in rs ==> Low(r).field != 0
    then o == Done(LowAll(rs), Past(s, |EncodeAll(rs)|, |rs|, []))
    else o.Fail?
  }

  lemma {:induction false} CollectEncoded(rs: seq<Record>, s: Cursor, total: nat)
    requires s.rest == EncodeAll(rs) && BodiesFit(rs, s.limits) && Roomy(rs, s, total)
    ensures CollectsLow(rs, s, total)
  {
    hide ReadRecord, EncodeRecord, CollectsLow, Low, Collect, EncodeAll, Roomy, BodiesFit, BodyFits;
    if |rs| == 0 {
      CollectsNone(rs, s, total);
    } else {
      var (r, rest) := (rs[0], rs[1..]);
      EncodeFirst(rs);
      RoomFirst(rs, s, total);
      ReadRecordEncoded(r, s, EncodeAll(rest));
      LowTag(r);
      if Low(r).field != 0 {
        var next := Past(s, |EncodeRecord(r)|, 1, EncodeAll(rest));
        CollectEncoded(rest, next, total + |EncodeRecord(r)|);
        CollectsOn(rs, s, total, next);
      } else {
        CollectStops(rs, s, total);
      }
    }
  }

  lemma CollectsNone(rs: seq<Record>, s: Cursor, total: nat)
    requires |rs| == 0 && s.rest == EncodeAll(rs)
    ensures CollectsLow(rs, s, total)
  {
    EncodesNothing(rs);
  }

  /** Room for a list is room for its first record and then for the others. */
  lemma RoomFirst(rs: seq<Record>, s: Cursor, total: nat)
    requires |rs| > 0 && EncodeAll(rs) == EncodeRecord(rs[0]) + EncodeAll(rs[1..])
    requires s.rest == EncodeAll(rs) && BodiesFit(rs, s.limits) && Roomy(rs, s, total)
    ensures var n := |EncodeRecord(rs[0])|;
            && BodyFits(rs[0], s.limits) && Within(s.limits.maxBytes, s.read + n)
            && Within(s.limits.maxFields, s.fields + 1) && Within(s.limits.maxUnknownBytes, total + n)
            && BodiesFit(rs[1..], s.limits) && Roomy(rs[1..], Past(s, n, 1, EncodeAll(rs[1..])), total + n)
  {
    hide EncodeRecord, EncodeAll, BodyFits;
    assert rs[0] in rs;
  }

  lemma EncodesNothing(rs: seq<Record>)
    requires |rs| == 0
    ensures EncodeAll(rs) == [] && LowAll(rs) == []
  {
  }

  lemma EncodeFirst(rs: seq<Record>)
    requires |rs| > 0
    ensures EncodeAll(rs) == EncodeRecord(rs[0]) + EncodeAll(rs[1..]) && |EncodeRecord(rs[0])| > 0
  {
    hide EncodeRecord;
    EncodeNonempty(rs[0]);
  }

  lemma CollectsOn(rs: seq<Record>, s: Cursor, total: nat, next: Cursor)
    requires |rs| > 0 && s.rest != [] && Low(rs[0]).field != 0 && Onward(s, next)
    requires EncodeAll(rs) == EncodeRecord(rs[0]) + EncodeAll(rs[1..])
    requires |EncodeRecord(Low(rs[0]))| == |EncodeRecord(rs[0])|
    requires ReadRecord(s) == Done(Low(rs[0]), next)
    requires next == Past(s, |EncodeRecord(rs[0])|, 1, EncodeAll(rs[1..]))
    requires Within(s.limits.maxUnknownBytes, total + |EncodeRecord(rs[0])|)
    requires CollectsLow(rs[1..], next, total + |EncodeRecord(rs[0])|)
    ensures CollectsLow(rs, s, total)
  {
    hide ReadRecord, EncodeRecord, Low, EncodeAll;
    var (r, rest) := (rs[0], rs[1..]);
    assert Collect(s, total) == CollectAfter(ReadRecord(s), total);
    assert CollectAfter(Done(Low(r), next), total)
           == Prepend([Low(r)], Collect(next, total + |EncodeRecord(r)|));
    assert forall x :: x in rs <==> x == r || x in rest;
    assert LowAll(rs) == [Low(r)] + LowAll(rest);
  }

  lemma CollectStops(rs: seq<Record>, s: Cursor, total: nat)
    requires |rs| > 0 && s.rest != [] && Low(rs[0]).field == 0 && ReadRecord(s).Fail?
    ensures CollectsLow(rs, s, total)
  {
    hide ReadRecord, EncodeRecord, Low;
    assert rs[0] in rs;
    assert Collect(s, total) == CollectAfter(ReadRecord(s), total);
  }

  lemma EncodeNonempty(r: Record)
    ensures EncodeRecord(r) != []
  {
    assert EncodeTag(Tag(r.field, WireOf(r.value))) != [];
  }

  // --------------------------------------------- what reading a stream tells about its records

  lemma ReadValueShortest(wire: WireType, s: Cursor)
    requires ReadValue(wire, s).Done?
    ensures var o := ReadValue(wire, s);
            && WireOf(o.value) == wire
            && |EncodeValue(o.value)| <= |s.rest| - |o.next.rest|
            && o.next.read == s.read + (|s.rest| - |o.next.rest|) && o.next.fields == s.fields
            && InBudgetBytes(o.next)
            && BodyFits(Record(1, o.value), s.limits)
  {
    match wire {
      case Varint64 => Varint.EncodeShortest(s.rest, ReadVarint(s).value, Varint.Decode(s.rest).value.1);
      case Fixed32 =>
      case Fixed64 =>
      case LengthDelimited =>
        Varint.EncodeShortest(s.rest, ReadVarint(s).value, Varint.Decode(s.rest).value.1);
    }
  }

  predicate InBudgetBytes(s: Cursor) {
    Within(s.limits.maxBytes, s.read)
  }

  lemma ReadRecordShortest(s: Cursor)
    requires ReadRecord(s).Done?
    ensures var o := ReadRecord(s);
            && |EncodeRecord(o.value)| <= |s.rest| - |o.next.rest|
            && o.next.read == s.read + (|s.rest| - |o.next.rest|) && o.next.fields == s.fields + 1
            && InBudget(o.next)
            && BodyFits(o.value, s.limits) && o.value.field > 0
  {
    hide ReadValue, EncodeTag, EncodeValue;
    var t := ReadTag(s);
    TagShortest(s.rest, t.value, DecodeTag(s.rest).value.1);
    ReadValueShortest(t.value.wire, t.next);
  }

  /** Emitting what was collected never takes more room than the input took. */
  ghost predicate NoLarger(s: Cursor, total: nat) {
    var o := Collect(s, total);
    o.Done? ==>
      && |EncodeAll(o.value)| <= |s.rest|
      && o.next.read == s.read + |s.rest| && o.next.fields == s.fields + |o.value|
      && (o.value != [] ==> InBudget(o.next) && Within(s.limits.maxUnknownBytes, total + |EncodeAll(o.value)|))
      && BodiesFit(o.value, s.limits)
      && forall r :: r in o.value ==> r.field > 0
  }

  lemma NothingCollected(s: Cursor, total: nat)
    ensures Collect(s, total).Done? && Collect(s, total).value == [] ==> Collect(s, total).next == s
  {
    hide ReadRecord, EncodeRecord;
    if s.rest != [] {
      var r := ReadRecord(s);
      assert Collect(s, total) == CollectAfter(r, total);
    }
  }

  lemma {:induction false} CollectNoLarger(s: Cursor, total: nat)
    ensures NoLarger(s, total)
    decreases |s.rest|
  {
    hide ReadRecord, EncodeRecord;
    if s.rest != [] && Collect(s, total).Done? {
      var r := ReadRecord(s);
      assert Collect(s, total) == CollectAfter(r, total);
      assert r.Done?;
      var n := |EncodeRecord(r.value)|;
      ReadRecordShortest(s);
      CollectNoLarger(r.next, total + n);
      var o := Collect(r.next, total + n);
      var all := [r.value] + o.value;
      assert Collect(s, total) == Done(all, o.next);
      assert all[1..] == o.value;
      assert EncodeAll(all) == EncodeRecord(r.value) + EncodeAll(o.value);
      assert forall x :: x in all <==> x == r.value || x in o.value;
      if o.value == [] { NothingCollected(r.next, total + n); }
    }
  }

  // ------------------------------------------------------------------------ theorems

  lemma MembersByValues(rs: seq<Record>, r: Record)
    ensures r in rs <==> r.value in ValuesOf(rs, r.field)
  {
    if rs != [] { MembersByValues(rs[1..], r); }
  }

  lemma SameMembers(rs: seq<Record>, r: Record)
    ensures r in Emitted(Grouped(rs)) <==> r in rs
  {
    EmittedIsStableSort(rs);
    MembersByValues(rs, r);
    MembersByValues(Emitted(Grouped(rs)), r);
    assert ValuesOf(Emitted(Grouped(rs)), r.field) == ValuesOf(rs, r.field);
  }

  lemma {:induction false} LowAllInRange(rs: seq<Record>)
    requires AllInRange(rs)
    ensures LowAll(rs) == rs
  {
    hide InRange, Low;
    forall i | 0 <= i < |rs|
      ensures Low(rs[i]) == rs[i]
    {
      assert rs[i] in rs;
      LowInRange(rs[i]);
    }
  }

  lemma LowInRange(r: Record)
    requires InRange(r)
    ensures Low(r) == r
  {
  }

  /** The emitted bytes of a collected set. */
  ghost function Reemitted(rs: seq<Record>): bytes {
    EncodeAll(Emitted(Grouped(rs)))
  }

  lemma ReemittedRoomy(input: bytes, limits: DecoderLimits)
    requires Collect(Fresh(input, limits), 0).Done?
    ensures var rs := Collect(Fresh(input, limits), 0).value;
            var sorted := Emitted(Grouped(rs));
            && BodiesFit(sorted, limits)
            && (rs != [] ==> Roomy(sorted, Fresh(Reemitted(rs), limits), 0))
            && |Reemitted(rs)| <= |input|
  {
    hide Collect, Grouped, Emitted, EncodeAll;
    var s := Fresh(input, limits);
    CollectNoLarger(s, 0);
    var rs := Collect(s, 0).value;
    WeightGrouped(rs);
    forall r | r in Emitted(Grouped(rs))
      ensures BodyFits(r, limits)
    {
      SameMembers(rs, r);
    }
  }

  /**
   * Passthrough. For every input the read-and-store loop accepts: the re-emitted bytes are the stable sort of the
   * stored records by field number and no longer than the input, and when every field number fits 29 bits they are
   * accepted under the same limits, give back the same set, and re-emit as themselves.
   */
  lemma PassthroughKeepsSet(input: bytes, limits: DecoderLimits)
    requires Collect(Fresh(input, limits), 0).Done?
    requires AllInRange(Collect(Fresh(input, limits), 0).value)
    ensures var rs := Collect(Fresh(input, limits), 0).value;
            var again := Collect(Fresh(Reemitted(rs), limits), 0);
            && IsStableSort(Emitted(Grouped(rs)), rs)
            && |Reemitted(rs)| <= |input|
            && again.Done? && again.value == Emitted(Grouped(rs))
            && Grouped(again.value) == Grouped(rs)
            && Reemitted(again.value) == Reemitted(rs)
  {
    hide Collect, Grouped, Emitted, EncodeAll, Fresh;
    var rs := Collect(Fresh(input, limits), 0).value;
    var sorted := Emitted(Grouped(rs));
    EmittedIsStableSort(rs);
    ReemittedRoomy(input, limits);
    GroupedMeaning(rs, 0);
    RegroupEmitted(Grouped(rs));
    CollectSorted(rs, limits);
  }

  lemma SortedInRange(rs: seq<Record>)
    requires AllInRange(rs)
    ensures var sorted := Emitted(Grouped(rs));
            AllInRange(sorted) && LowAll(sorted) == sorted && forall r :: r in sorted ==> Low(r).field != 0
  {
    hide Grouped, Emitted, Low;
    var sorted := Emitted(Grouped(rs));
    forall r | r in sorted
      ensures InRange(r) && Low(r).field != 0
    {
      SameMembers(rs, r);
      LowInRange(r);
    }
    LowAllInRange(sorted);
  }

  lemma CollectSorted(rs: seq<Record>, limits: DecoderLimits)
    requires AllInRange(rs) && BodiesFit(Emitted(Grouped(rs)), limits)
    requires rs != [] ==> Roomy(Emitted(Grouped(rs)), Fresh(Reemitted(rs), limits), 0)
    ensures var o := Collect(Fresh(Reemitted(rs), limits), 0);
            o.Done? && o.value == Emitted(Grouped(rs))
  {
    hide Collect, Grouped, Emitted, EncodeAll, Roomy, BodiesFit, AllInRange, Low, LowAll;
    if rs == [] {
      CollectNothing(limits);
    } else {
      SortedInRange(rs);
      CollectEncoded(Emitted(Grouped(rs)), Fresh(Reemitted(rs), limits), 0);
    }
  }

  lemma CollectNothing(limits: DecoderLimits)
    ensures Emitted(Grouped([])) == [] && Reemitted([]) == []
    ensures Collect(Fresh([], limits), 0) == Done([], Fresh([], limits))
  {
    NothingEmitted();
  }

  /** What the emission of a set needs of the limits to be read back. */
  ghost predicate Emittable(rs: seq<Record>, limits: DecoderLimits) {
    var sorted := Emitted(Grouped(rs));
    BodiesFit(sorted, limits) && (|rs| > 0 ==> Roomy(sorted, Fresh(Reemitted(rs), limits), 0))
  }

  lemma HighFieldsLost(rs: seq<Record>, limits: DecoderLimits)
    requires Emittable(rs, limits) && !AllInRange(rs) && forall r :: r in rs ==> r.field > 0
    ensures var again := Collect(Fresh(Reemitted(rs), limits), 0);
            again.Done? ==> Grouped(again.value) != Grouped(rs)
  {
    hide Collect, Grouped, Emitted, EncodeAll;
    var sorted := Emitted(Grouped(rs));
    var again := Collect(Fresh(Reemitted(rs), limits), 0);
    CollectEncoded(sorted, Fresh(Reemitted(rs), limits), 0);
    var high :| high in rs && !InRange(high);
    assert high.field > 0;
    if again.Done? {
      assert again.value == LowAll(sorted);
      MembersByValues(rs, high);
      GroupedMeaning(rs, high.field);
      GroupedMeaning(again.value, high.field);
      MembersByValues(again.value, high);
      assert high !in again.value by {
        assert forall i :: 0 <= i < |again.value| ==> again.value[i] == Low(sorted[i]);
      }
    }
  }

  /** Past 29 bits it never works: the re-emitted bytes are refused, or give another set. */
  lemma PassthroughLosesHighFields(input: bytes, limits: DecoderLimits)
    requires Collect(Fresh(input, limits), 0).Done?
    requires !AllInRange(Collect(Fresh(input, limits), 0).value)
    ensures var rs := Collect(Fresh(input, limits), 0).value;
            var again := Collect(Fresh(Reemitted(rs), limits), 0);
            again.Done? ==> Grouped(again.value) != Grouped(rs)
  {
    hide Collect, Grouped, Emitted, EncodeAll;
    CollectNoLarger(Fresh(input, limits), 0);
    ReemittedRoomy(input, limits);
    HighFieldsLost(Collect(Fresh(input, limits), 0).value, limits);
  }

  /** The exact condition: a stored set survives re-emission if and only if all its field numbers fit 29 bits. */
  lemma PassthroughExact(input: bytes, limits: DecoderLimits)
    requires Collect(Fresh(input, limits), 0).Done?
    ensures var rs := Collect(Fresh(input, limits), 0).value;
            var again := Collect(Fresh(Reemitted(rs), limits), 0);
            again.Done? && Grouped(again.value) == Grouped(rs) <==> AllInRange(rs)
  {
    hide Collect, Grouped, Emitted, EncodeAll;
    if AllInRange(Collect(Fresh(input, limits), 0).value) {
      PassthroughKeepsSet(input, limits);
    } else {
      PassthroughLosesHighFields(input, limits);
    }
  }

  // --------------------------------------------------- inputs that are not read to their end

  /** What is stored from a stream, read to its end or not, fits the budgets the stream was read under. */
  ghost predicate StoredFits(s: Cursor, total: nat) {
    var rs := Stored(s, total);
    && |EncodeAll(rs)| <= |s.rest|
    && (|rs| > 0 ==> Within(s.limits.maxBytes, s.read + |EncodeAll(rs)|)
                     && Within(s.limits.maxFields, s.fields + |rs|))
    && BodiesFit(rs, s.limits)
    && forall r :: r in rs ==> r.field > 0
  }

  lemma FitsFirst(s: Cursor, total: nat, r: Record, next: Cursor, rest: seq<Record>)
    requires Stored(s, total) == [r] + rest
    requires |EncodeRecord(r)| <= |s.rest| - |next.rest| && next.read == s.read + (|s.rest| - |next.rest|)
    requires next.fields == s.fields + 1 && InBudget(next) && next.limits == s.limits
    requires BodyFits(r, s.limits) && r.field > 0
    requires |EncodeAll(rest)| <= |next.rest|
    requires |rest| > 0 ==> Within(s.limits.maxBytes, next.read + |EncodeAll(rest)|)
                            && Within(s.limits.maxFields, next.fields + |rest|)
    requires BodiesFit(rest, s.limits) && forall x :: x in rest ==> x.field > 0
    ensures StoredFits(s, total)
  {
    hide Stored, EncodeRecord;
    var all := [r] + rest;
    assert all[1..] == rest;
    assert EncodeAll(all) == EncodeRecord(r) + EncodeAll(rest);
    assert forall x :: x in all <==> x == r || x in rest;
  }

  lemma {:induction false} StoredNoLarger(s: Cursor, total: nat)
    ensures StoredFits(s, total)
    decreases |s.rest|
  {
    hide ReadRecord, EncodeRecord;
    if s.rest != [] && ReadRecord(s).Done? {
      var o := ReadRecord(s);
      var total' := total + |EncodeRecord(o.value)|;
      ReadRecordShortest(s);
      if Within(o.next.limits.maxUnknownBytes, total') {
        StoredNoLarger(o.next, total');
        FitsFirst(s, total, o.value, o.next, Stored(o.next, total'));
      } else {
        assert [o.value] + [] == [o.value];
        EncodesNothing([]);
        FitsFirst(s, total, o.value, o.next, []);
      }
    } else {
      StoresNothing(s, total);
      EncodesNothing([]);
    }
  }

  lemma StoresNothing(s: Cursor, total: nat)
    requires s.rest == [] || ReadRecord(s).Fail?
    ensures Stored(s, total) == []
  {
    hide ReadRecord, EncodeRecord;
    if s.rest != [] { assert Stored(s, total) == StoredAfter(ReadRecord(s), total); }
  }

  lemma SortedFits(s: Cursor, rs: seq<Record>)
    requires s.read == 0 && s.fields == 0 && rs == Stored(s, 0) && StoredFits(s, 0)
    requires |rs| > 0 ==> Within(s.limits.maxUnknownBytes, |EncodeAll(rs)|)
    ensures Emittable(rs, s.limits)
  {
    hide Stored, Grouped, Emitted, EncodeAll;
    WeightGrouped(rs);
    forall r | r in Emitted(Grouped(rs))
      ensures BodyFits(r, s.limits)
    {
      SameMembers(rs, r);
    }
  }

  lemma SortedReturns(rs: seq<Record>, limits: DecoderLimits)
    requires Emittable(rs, limits) && AllInRange(rs)
    ensures var again := Collect(Fresh(Reemitted(rs), limits), 0);
            again.Done? && Grouped(again.value) == Grouped(rs)
  {
    hide Collect, Grouped, Emitted, EncodeAll;
    CollectSorted(rs, limits);
    GroupedMeaning(rs, 0);
    RegroupEmitted(Grouped(rs));
  }

  lemma OverLimitLost(rs: seq<Record>, limits: DecoderLimits)
    requires !Within(limits.maxUnknownBytes, |EncodeAll(rs)|)
    ensures var again := Collect(Fresh(Reemitted(rs), limits), 0);
            again.Done? ==> Grouped(again.value) != Grouped(rs)
  {
    hide Collect, Grouped, Emitted, EncodeAll;
    var again := Collect(Fresh(Reemitted(rs), limits), 0);
    CollectNoLarger(Fresh(Reemitted(rs), limits), 0);
    if again.Done? && Grouped(again.value) == Grouped(rs) {
      WeightGrouped(rs);
      WeightGrouped(again.value);
      if |again.value| == 0 { EncodesNothing(again.value); }
      assert false;
    }
  }

  /** What is left in the set when reading stops survives re-emission exactly when it fits what the set may hold. */
  lemma StoppedPassthrough(input: bytes, limits: DecoderLimits)
    ensures var rs := Stored(Fresh(input, limits), 0);
            var again := Collect(Fresh(Reemitted(rs), limits), 0);
            && |Reemitted(rs)| <= |input|
            && (again.Done? && Grouped(again.value) == Grouped(rs) <==>
                AllInRange(rs) && (|rs| > 0 ==> Within(limits.maxUnknownBytes, |EncodeAll(rs)|)))
  {
    hide Collect, Stored, Grouped, Emitted, EncodeAll;
    var s := Fresh(input, limits);
    var rs := Stored(s, 0);
    StoredNoLarger(s, 0);
    WeightGrouped(rs);
    if |rs| > 0 && !Within(limits.maxUnknownBytes, |EncodeAll(rs)|) {
      OverLimitLost(rs, limits);
    } else {
      SortedFits(s, rs);
      if AllInRange(rs) { SortedReturns(rs, limits); } else { HighFieldsLost(rs, limits); }
    }
  }

  /** Storing the emissions of two sets one behind the other is storing the first and merging the second into it. */
  lemma ConcatIsMerge(a: FieldMap, b: FieldMap, limits: DecoderLimits)
    requires NoEmptyList(a) && NoEmptyList(b)
    requires AllInRange(Emitted(a) + Emitted(b)) && BodiesFit(Emitted(a) + Emitted(b), limits)
    requires var both := EncodeAll(Emitted(a)) + EncodeAll(Emitted(b));
             Roomy(Emitted(a) + Emitted(b), Fresh(both, limits), 0)
    ensures var both := EncodeAll(Emitted(a)) + EncodeAll(Emitted(b));
            var o := Collect(Fresh(both, limits), 0);
            o.Done? && Grouped(o.value) == Merged(a, b)
  {
    hide Collect, Grouped, Emitted, EncodeAll, Merged;
    var rs := Emitted(a) + Emitted(b);
    EncodeAllConcat(Emitted(a), Emitted(b));
    CollectEncoded(rs, Fresh(EncodeAll(rs), limits), 0);
    assert forall r :: r in rs ==> InRange(r) && Low(r).field != 0;
    LowAllInRange(rs);
    GroupedConcat(Emitted(a), Emitted(b));
    RegroupEmitted(a);
    RegroupEmitted(b);
  }

  // -------------------------------------------------------------------- what a record holds

  /** The value a field is stored as: a varint by its low 64 bits, fixed widths lowest byte first, a body as it is. */
  predicate Holds(v: UnknownValue, t: G.Tree) {
    match t
    case VarintTree(raw) => v == UnknownVarint(Varint.Value(raw) % 0x1_0000_0000_0000_0000)
    case Fixed32Tree(raw) =>
      |raw| == 4 && v == UnknownFixed32(LowFirst(raw[0], raw[1], raw[2], raw[3]))
    case Fixed64Tree(raw) =>
      |raw| == 8 && v.UnknownFixed64?
      && v.x == LowFirst(raw[0], raw[1], raw[2], raw[3])
                + 0x1_0000_0000 * LowFirst(raw[4], raw[5], raw[6], raw[7])
    case LengthTree(_, body) => v == UnknownLength(body)
    case GroupTree(_, _) => false
  }

  /** A stored field is what was written, if it fits; groups and end tags are refused. */
  lemma RecordRead(raw: bytes, tag: Tag, t: G.Tree, s: Cursor, tail: bytes)
    requires DecodeTag(raw) == Success((tag, |raw|)) && G.WellFormed(t) && G.WireOf(t) == tag.wire && !t.GroupTree?
    requires s.rest == raw + (G.Flat(t) + tail) && InBudget(s)
    ensures var o := ReadRecord(s);
            && (o.Done? <==>
                && G.LengthsFit(t, s.limits) && Within(s.limits.maxBytes, s.read + |raw| + |G.Flat(t)|)
                && Within(s.limits.maxFields, s.fields + 1))
            && (o.Done? ==>
                  && o.value.field == tag.field && Holds(o.value.value, t)
                  && o.next == Past(s, |raw| + |G.Flat(t)|, 1, tail))
  {
    hide ReadTag, DecodeTag, ReadValue, Holds, G.WellFormed, G.Flat, InBudget;
    var u := Past(s, |raw|, 1, G.Flat(t) + tail);
    assert G.IsTagOf(raw, tag.wire);
    G.ReadTagOver(raw, tag.wire, s, G.Flat(t) + tail);
    if ReadTag(s).Done? { ValueRead(t, u, tail); }
  }

  lemma ValueRead(t: G.Tree, s: Cursor, tail: bytes)
    requires G.WellFormed(t) && !t.GroupTree? && s.rest == G.Flat(t) + tail
    ensures var o := ReadValue(G.WireOf(t), s);
            && (o.Done? <==> G.LengthsFit(t, s.limits) && Within(s.limits.maxBytes, s.read + |G.Flat(t)|))
            && (o.Done? ==> Holds(o.value, t) && o.next == Past(s, |G.Flat(t)|, 0, tail))
  {
    hide ReadVarint, ReadFixed, ReadLengthDelimited;
    match t {
      case VarintTree(raw) => G.ReadVarintOver(raw, s, tail);
      case Fixed32Tree(raw) => Fixed32Over(raw, s, tail);
      case Fixed64Tree(raw) => Fixed64Over(raw, s, tail);
      case LengthTree(prefix, body) => BodyOver(prefix, body, s, tail);
    }
  }

  lemma Fixed32Over(raw: bytes, s: Cursor, tail: bytes)
    requires |raw| == 4 && s.rest == raw + tail
    ensures var v := LowFirst(raw[0], raw[1], raw[2], raw[3]);
            && (ReadFixed32(s).Done? <==> Within(s.limits.maxBytes, s.read + 4))
            && (ReadFixed32(s).Done? ==> ReadFixed32(s) == Done(v, Past(s, 4, 0, tail)))
  {
    assert raw == [raw[0], raw[1], raw[2], raw[3]] == s.rest[..4];
    assert s.rest[4..] == tail;
    FourBytes(raw[0], raw[1], raw[2], raw[3]);
  }

  lemma Fixed64Over(raw: bytes, s: Cursor, tail: bytes)
    requires |raw| == 8 && s.rest == raw + tail
    ensures var v := LowFirst(raw[0], raw[1], raw[2], raw[3])
                     + 0x1_0000_0000 * LowFirst(raw[4], raw[5], raw[6], raw[7]);
            && (ReadFixed64(s).Done? <==> Within(s.limits.maxBytes, s.read + 8))
            && (ReadFixed64(s).Done? ==> ReadFixed64(s) == Done(v, Past(s, 8, 0, tail)))
  {
    var (low, high) := (raw[..4], raw[4..]);
    assert raw == low + high == s.rest[..8];
    assert low == [raw[0], raw[1], raw[2], raw[3]] && high == [raw[4], raw[5], raw[6], raw[7]];
    assert s.rest[8..] == tail;
    FourBytes(raw[0], raw[1], raw[2], raw[3]);
    FourBytes(raw[4], raw[5], raw[6], raw[7]);
    EightBytes(low, high);
  }

  lemma BodyOver(prefix: bytes, body: bytes, s: Cursor, tail: bytes)
    requires G.WellFormed(G.LengthTree(prefix, body)) && s.rest == (prefix + body) + tail
    ensures var o := ReadLengthDelimited(s);
            && (o.Done? <==>
                Within(s.limits.maxLengthDelimited, |body|) && Within(s.limits.maxBytes, s.read + |prefix + body|))
            && (o.Done? ==> o == Done(body, Past(s, |prefix + body|, 0, tail)))
  {
    hide ReadVarint;
    assert s.rest == prefix + (body + tail);
    G.ReadVarintOver(prefix, s, body + tail);
    assert (body + tail)[..|body|] == body && (body + tail)[|body|..] == tail;
  }

  lemma GroupRefused(s: Cursor)
    requires ReadTag(s).Done?
    ensures ReadTag(s).value.wire == StartGroup ==> ReadRecord(s) == Fail(UnexpectedWireType(3), ReadTag(s).next)
    ensures ReadTag(s).value.wire == EndGroup ==> ReadRecord(s) == Fail(UnexpectedWireType(4), ReadTag(s).next)
  {
    hide ReadTag;
  }
}
