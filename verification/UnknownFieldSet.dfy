/** The `UnknownFieldSet` object of unknown.rs and the read-and-store loop around it. */
module UnknownFieldSet {
  import opened Wrappers
  import opened WireBasics
  import opened WireTag
  import opened UnknownFields
  import S = ReaderSpec
  import R = Reader
  import W = Writer
  import Varint

  /** `tag_len`: sized as if the field were a varint. */
  method TagLen(field: u32) returns (n: nat)
    ensures forall wire :: n == |EncodeTag(Tag(field, wire))|
  {
    n := Varint.VarintLen((field * 8) % U32 + Varint64.AsU8());
    forall wire
      ensures n == |EncodeTag(Tag(field, wire))|
    {
      TagLength(Tag(field, Varint64), wire);
    }
  }

  /** `value_len` */
  method ValueLen(v: UnknownValue) returns (n: nat)
    requires v.UnknownLength? ==> |v.body| < U64
    ensures n == |EncodeValue(v)|
  {
    match v {
      case UnknownVarint(x) => n := Varint.VarintLen(x);
      case UnknownFixed32(_) => n := 4;
      case UnknownFixed64(_) => n := 8;
      case UnknownLength(b) =>
        n := Varint.VarintLen(|b|);
        n := n + |b|;
    }
  }

  class UnknownFieldSet {
    var fields: FieldMap
    var totalLen: nat

    /** The cached size is exactly what `encode` would write. */
    ghost predicate Valid()
      reads this
    {
      NoEmptyList(fields) && totalLen == Weight(fields)
    }

    constructor ()
      ensures Valid() && fields == map[]
    {
      fields, totalLen := map[], 0;
    }

    /** `encoded_len` */
    method EncodedLen() returns (n: nat)
      requires Valid()
      ensures n == |EncodeAll(Emitted(fields))|
    {
      n := totalLen;
    }

    method Insert(field: u32, value: UnknownValue)
      requires Valid() && (value.UnknownLength? ==> |value.body| < U64)
      modifies this
      ensures Valid() && fields == UnknownFields.Insert(old(fields), Record(field, value))
    {
      var t := TagLen(field);
      var v := ValueLen(value);
      WeightInsert(fields, Record(field, value));
      totalLen := totalLen + t + v;
      fields := fields[field := Get(fields, field) + [value]];
    }

    /** `store`: the value is kept even when the limit is then found to be exceeded. */
    method Store(tag: Tag, reader: R.Reader) returns (r: Result<(), Error>)
      requires Valid() && reader.Valid()
      modifies this, reader
      ensures Valid() && reader.Valid()
      ensures var o := ReadValue(tag.wire, old(reader.At()));
              if o.Fail? then r == Failure(o.error) && reader.At() == o.at && fields == old(fields)
              else
                && reader.At() == o.next
                && fields == UnknownFields.Insert(old(fields), Record(tag.field, o.value))
                && totalLen == old(totalLen) + |EncodeRecord(Record(tag.field, o.value))|
                && (r.Success? <==> Within(reader.limits.maxUnknownBytes, totalLen))
                && (r.Failure? ==> r.error == LimitExceeded(MaxUnknownBytes))
    {
      hide ReadValue, EncodeRecord, Weight;
      var v := ReadUnknown(tag.wire, reader);
      if v.Failure? { return Failure(v.error); }
      WeightInsert(fields, Record(tag.field, v.value));
      Insert(tag.field, v.value);
      r := if Within(reader.limits.maxUnknownBytes, totalLen) then Success(())
           else Failure(LimitExceeded(MaxUnknownBytes));
    }

    /** `encode`: fields by ascending number, values in arrival order. */
    method Encode(w: W.Writer)
      requires Valid() && forall k :: k in fields ==> k > 0
      modifies w
      ensures w.buf == old(w.buf) + EncodeAll(Emitted(fields))
    {
      var todo := fields;
      while todo.Keys != {}
        invariant todo.Keys <= fields.Keys && forall k :: k in todo ==> todo[k] == fields[k]
        invariant w.buf + EncodeAll(Emitted(todo)) == old(w.buf) + EncodeAll(Emitted(fields))
        decreases |todo.Keys|
      {
        ghost var s := Smallest(todo.Keys);
        var field: u32 :| field in todo.Keys && forall j :: j in todo.Keys ==> field <= j;
        assert field == s;
        ghost var rest := todo - {field};
        EncodeAllConcat(Pairs(field, todo[field]), Emitted(rest));
        assert rest.Keys == todo.Keys - {field};
        ghost var before := w.buf;
        EncodeValues(field, todo[field], w);
        Assoc(before, EncodeAll(Pairs(field, todo[field])), EncodeAll(Emitted(rest)));
        todo := todo - {field};
      }
    }

    /** `merge_from`; the two sets are distinct objects. */
    method MergeFrom(other: UnknownFieldSet)
      requires Valid() && other.Valid() && other != this
      requires forall k, v :: k in other.fields && v in other.fields[k] && v.UnknownLength? ==> |v.body| < U64
      modifies this
      ensures Valid() && fields == Merged(old(fields), other.fields)
    {
      hide Weight, EncodeAll, Merged, Emitted;
      var todo := other.fields.Keys;
      MergedNothing(fields, other.fields);
      while todo != {}
        invariant todo <= other.fields.Keys
        invariant Valid() && fields == Merged(old(fields), other.fields - todo)
        decreases |todo|
      {
        var field: u32 :| field in todo && forall j :: j in todo ==> field <= j by {
          var k := FindSmallest(todo);
        }
        MergedStep(old(fields), other.fields, todo, field);
        Append(field, other.fields[field]);
        todo := todo - {field};
      }
      assert other.fields - {} == other.fields;
    }

    /** One turn of `merge_from`. */
    method Append(field: u32, vs: seq<UnknownValue>)
      requires Valid() && vs != [] && forall v :: v in vs && v.UnknownLength? ==> |v.body| < U64
      modifies this
      ensures Valid() && fields == old(fields)[field := Get(old(fields), field) + vs]
    {
      var sum := SumOfSizes(field, vs);
      WeightExtend(fields, field, vs);
      totalLen := totalLen + sum;
      fields := fields[field := Get(fields, field) + vs];
    }
  }

  /** The value that `store` reads; groups are refused. */
  method ReadUnknown(wire: WireType, reader: R.Reader) returns (r: Result<UnknownValue, Error>)
    requires reader.Valid()
    modifies reader
    ensures reader.Follows(ReadValue(wire, old(reader.At())), r)
    ensures r.Success? && r.value.UnknownLength? ==> |r.value.body| < U64
  {
    match wire {
      case Varint64 =>
        var v := reader.ReadVarint();
        r := if v.Failure? then Failure(v.error) else Success(UnknownVarint(v.value));
      case Fixed32 =>
        var v := reader.ReadFixed32();
        r := if v.Failure? then Failure(v.error) else Success(UnknownFixed32(v.value));
      case Fixed64 =>
        var v := reader.ReadFixed64();
        r := if v.Failure? then Failure(v.error) else Success(UnknownFixed64(v.value));
      case LengthDelimited =>
        BodyBelow(reader.At());
        var v := reader.ReadLengthDelimited();
        r := if v.Failure? then Failure(v.error) else Success(UnknownLength(v.value));
      case StartGroup => r := Failure(UnexpectedWireType(wire.AsU8()));
      case EndGroup => r := Failure(UnexpectedWireType(wire.AsU8()));
    }
  }

  lemma BodyBelow(s: S.Cursor)
    ensures S.ReadLengthDelimited(s).Done? ==> |S.ReadLengthDelimited(s).value| < U64
  {
  }

  /** The inner loop of `encode`. */
  method EncodeValues(field: u32, vs: seq<UnknownValue>, w: W.Writer)
    requires field > 0
    modifies w
    ensures w.buf == old(w.buf) + EncodeAll(Pairs(field, vs))
  {
    var i := 0;
    while i < |vs|
      invariant 0 <= i <= |vs|
      invariant w.buf + EncodeAll(Pairs(field, vs[i..])) == old(w.buf) + EncodeAll(Pairs(field, vs))
    {
      assert vs[i..][1..] == vs[i + 1..];
      ghost var before := w.buf;
      WriteValue(w, field, vs[i]);
      Assoc(before, EncodeRecord(Record(field, vs[i])), EncodeAll(Pairs(field, vs[i + 1..])));
      i := i + 1;
    }
  }

  /** `write_value` */
  method WriteValue(w: W.Writer, field: u32, v: UnknownValue)
    requires field > 0
    modifies w
    ensures w.buf == old(w.buf) + EncodeRecord(Record(field, v))
  {
    w.WriteTag(field, WireOf(v));
    match v {
      case UnknownVarint(x) => w.WriteVarint(x);
      case UnknownFixed32(x) => w.WriteFixed32(x);
      case UnknownFixed64(x) => w.WriteFixed64(x);
      case UnknownLength(b) => w.WriteLengthDelimited(b);
    }
    Assoc(old(w.buf), EncodeTag(Tag(field, WireOf(v))), EncodeValue(v));
  }

  /** The sum `merge_from` adds to the cached size for one field. */
  method SumOfSizes(field: u32, vs: seq<UnknownValue>) returns (sum: nat)
    requires forall v :: v in vs && v.UnknownLength? ==> |v.body| < U64
    ensures sum == |EncodeAll(Pairs(field, vs))|
  {
    sum := 0;
    var i := 0;
    while i < |vs|
      invariant 0 <= i <= |vs|
      invariant sum + |EncodeAll(Pairs(field, vs[i..]))| == |EncodeAll(Pairs(field, vs))|
    {
      assert vs[i..][1..] == vs[i + 1..];
      var t := TagLen(field);
      var v := ValueLen(vs[i]);
      assert |EncodeRecord(Record(field, vs[i]))| == t + v;
      sum := sum + (t + v);
      i := i + 1;
    }
  }

  /** What the loop reports, against what `Collect` says. */
  ghost predicate Collected(o: S.Out<seq<Record>>, res: Result<(), Error>, at: S.Cursor) {
    match o
    case Fail(e, _) => res == Failure(e)
    case Done(_, next) => res == Success(()) && at == next
  }

  /** Having stored `done` and standing at `c`, the loop will end as it would have from `start`. */
  ghost predicate OnTrack(start: S.Cursor, done: seq<Record>, c: S.Cursor, total: nat) {
    Collect(start, 0) == Prepend(done, Collect(c, total)) && Stored(start, 0) == done + Stored(c, total)
  }

  /**
   * The decode loop around `store`: read a tag, store its value, stop at the first error. However it ends, the set
   * holds the records stored before, grouped by field number.
   */
  method StoreAll(r: R.Reader, into: UnknownFieldSet) returns (res: Result<(), Error>)
    requires r.Valid() && into.Valid() && into.fields == map[]
    modifies r, into
    ensures r.Valid() && into.Valid()
    ensures Collected(Collect(old(r.At()), 0), res, r.At())
    ensures into.fields == Grouped(Stored(old(r.At()), 0))
    ensures res.Success? ==> into.fields == Grouped(Collect(old(r.At()), 0).value)
    ensures res.Success? && into.totalLen > 0 ==> Within(r.limits.maxUnknownBytes, into.totalLen)
  {
    hide ReadRecord, ReadValue, S.ReadTag, Collect, Stored, EncodeRecord, OnTrack, Grouped, Weight, NoEmptyList;
    ghost var start := r.At();
    ghost var done: seq<Record> := [];
    NothingStored(start);
    while true
      invariant r.Valid() && into.Valid()
      invariant into.fields == Grouped(done)
      invariant into.totalLen > 0 ==> Within(r.limits.maxUnknownBytes, into.totalLen)
      invariant OnTrack(start, done, r.At(), into.totalLen)
      decreases |r.buf| - r.pos
    {
      var stop := r.IsEmpty();
      if stop {
        AtEnd(start, done, r.At(), into.totalLen);
        return Success(());
      }
      ghost var c, before := r.At(), into.totalLen;
      RecordParts(c);
      var tag := r.ReadTag();
      if tag.Failure? {
        ReadFailed(start, done, c, before);
        return Failure(tag.error);
      }
      var stored := into.Store(tag.value, r);
      if stored.Failure? {
        ReadFailed(start, done, c, before);
        GroupedMore(done, ReadRecord(c));
        return Failure(stored.error);
      }
      ghost var rec := ReadRecord(c).value;
      OnTrackStep(start, done, c, before);
      GroupedMore(done, ReadRecord(c));
      done := done + [rec];
    }
  }

  lemma GroupedMore(done: seq<Record>, r: S.Out<Record>)
    ensures r.Done? ==> Grouped(done + [r.value]) == Insert(Grouped(done), r.value)
  {
    if r.Done? { assert (done + [r.value])[..|done|] == done; }
  }

  /** A record is a tag and then a value; the first failure is the failure. */
  lemma RecordParts(c: S.Cursor)
    ensures var (t, r) := (S.ReadTag(c), ReadRecord(c));
            if t.Fail? then r.Fail? && r.error == t.error
            else
              var v := ReadValue(t.value.wire, t.next);
              if v.Fail? then r.Fail? && r.error == v.error
              else r == S.Done(Record(t.value.field, v.value), v.next)
  {
    hide S.ReadTag, ReadValue;
  }

  lemma NothingStored(start: S.Cursor)
    ensures OnTrack(start, [], start, 0) && Weight(map[]) == 0 && Grouped([]) == map[]
  {
    hide ReadRecord;
    var o := Collect(start, 0);
    if o.Done? { assert [] + o.value == o.value; }
    assert [] + Stored(start, 0) == Stored(start, 0);
  }

  lemma AtEnd(start: S.Cursor, done: seq<Record>, c: S.Cursor, total: nat)
    requires OnTrack(start, done, c, total) && c.rest == []
    ensures Collect(start, 0) == S.Done(done, c) && Stored(start, 0) == done
  {
    assert done + [] == done;
  }

  lemma ReadFailed(start: S.Cursor, done: seq<Record>, c: S.Cursor, total: nat)
    requires OnTrack(start, done, c, total) && c.rest != []
    ensures ReadRecord(c).Fail? ==> Collect(start, 0).Fail? && Collect(start, 0).error == ReadRecord(c).error
    ensures ReadRecord(c).Fail? ==> Stored(start, 0) == done
    ensures ReadRecord(c).Done? && !Within(c.limits.maxUnknownBytes, total + |EncodeRecord(ReadRecord(c).value)|) ==>
              Collect(start, 0).Fail? && Collect(start, 0).error == LimitExceeded(MaxUnknownBytes)
              && Stored(start, 0) == done + [ReadRecord(c).value]
  {
    hide ReadRecord, EncodeRecord;
    var r := ReadRecord(c);
    assert Collect(c, total) == CollectAfter(r, total);
    assert Collect(start, 0) == Prepend(done, CollectAfter(r, total));
    assert Stored(c, total) == StoredAfter(r, total);
    if r.Fail? {
      assert CollectAfter(r, total) == S.Fail(r.error, r.at);
      assert done + [] == done;
    } else {
      assert r.next.limits == c.limits;
    }
  }

  lemma OnTrackStep(start: S.Cursor, done: seq<Record>, c: S.Cursor, total: nat)
    requires OnTrack(start, done, c, total) && c.rest != [] && ReadRecord(c).Done?
    requires Within(c.limits.maxUnknownBytes, total + |EncodeRecord(ReadRecord(c).value)|)
    ensures var r := ReadRecord(c);
            OnTrack(start, done + [r.value], r.next, total + |EncodeRecord(r.value)|)
  {
    hide ReadRecord, EncodeRecord;
    var r := ReadRecord(c);
    StoreStep(r, total);
    PrependTwice(done, [r.value], Collect(r.next, total + |EncodeRecord(r.value)|));
    Assoc(done, [r.value], Stored(r.next, total + |EncodeRecord(r.value)|));
  }

  ghost predicate Stores(r: S.Out<Record>, total: nat)
    requires r.Done?
  {
    && CollectAfter(r, total) == Prepend([r.value], Collect(r.next, total + |EncodeRecord(r.value)|))
    && StoredAfter(r, total) == [r.value] + Stored(r.next, total + |EncodeRecord(r.value)|)
  }

  lemma StoreStep(r: S.Out<Record>, total: nat)
    requires r.Done? && Within(r.next.limits.maxUnknownBytes, total + |EncodeRecord(r.value)|)
    ensures Stores(r, total)
  {
  }

  lemma PrependTwice(a: seq<Record>, b: seq<Record>, o: S.Out<seq<Record>>)
    ensures Prepend(a, Prepend(b, o)) == Prepend(a + b, o)
  {
    if o.Done? { assert a + (b + o.value) == (a + b) + o.value; }
  }

  lemma MergedNothing(a: FieldMap, all: FieldMap)
    ensures Merged(a, all - all.Keys) == a
  {
    assert forall k :: k in a ==> Get(a, k) + [] == a[k];
  }

  /** Merging one more field is appending its values. */
  lemma MergedStep(a: FieldMap, all: FieldMap, todo: set<u32>, field: u32)
    requires field in todo && todo <= all.Keys
    ensures var m := Merged(a, all - todo);
            Merged(a, all - (todo - {field})) == m[field := Get(m, field) + all[field]]
  {
    var m := Merged(a, all - todo);
    var l, r := Merged(a, all - (todo - {field})), m[field := Get(m, field) + all[field]];
    assert Get(m, field) == Get(a, field);
    assert l.Keys == r.Keys;
    forall k | k in l
      ensures l[k] == r[k]
    {
    }
  }
}
