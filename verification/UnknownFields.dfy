/**
 * Unknown-field records as values: how they are written, how the `read_tag` + `store` loop reads them, and how the
 * ordered map of unknown.rs rearranges them.
 */
module UnknownFields {
  import opened WireBasics
  import opened WireTag
  import opened ReaderSpec
  import Varint
  import W = Writer

  datatype UnknownValue =
    | UnknownVarint(v: u64)
    | UnknownFixed32(w: u32)
    | UnknownFixed64(x: u64)
    | UnknownLength(body: bytes)

  datatype Record = Record(field: u32, value: UnknownValue)

  /** The map of unknown.rs: values by field number, in arrival order. */
  type FieldMap = map<u32, seq<UnknownValue>>

  function WireOf(v: UnknownValue): WireType {
    match v
    case UnknownVarint(_) => Varint64
    case UnknownFixed32(_) => Fixed32
    case UnknownFixed64(_) => Fixed64
    case UnknownLength(_) => LengthDelimited
  }

  function EncodeValue(v: UnknownValue): bytes {
    match v
    case UnknownVarint(x) => Varint.Encode(x)
    case UnknownFixed32(x) => ToLittleEndian(x, 4)
    case UnknownFixed64(x) => ToLittleEndian(x, 8)
    case UnknownLength(b) => W.Framed(b)
  }

  /** `write_value` */
  function EncodeRecord(r: Record): bytes {
    EncodeTag(Tag(r.field, WireOf(r.value))) + EncodeValue(r.value)
  }

  function EncodeAll(rs: seq<Record>): bytes {
    if rs == [] then [] else EncodeRecord(rs[0]) + EncodeAll(rs[1..])
  }

  /** `read_tag` followed by `store`, up to the insertion. */
  function ReadRecord(s: Cursor): (o: Out<Record>)
    ensures o.Done? ==> Onward(s, o.next) && |o.next.rest| < |s.rest|
  {
    var t :- ReadTag(s);
    var v :- ReadValue(t.0.wire, t.1);
    Done(Record(t.0.field, v.0), v.1)
  }

  function ReadValue(wire: WireType, s: Cursor): (o: Out<UnknownValue>)
    ensures o.Done? ==> Onward(s, o.next) && |o.next.rest| < |s.rest|
  {
    match wire
    case Varint64 => var v :- ReadVarint(s); Done(UnknownVarint(v.0), v.1)
    case Fixed32 => var v :- ReadFixed32(s); Done(UnknownFixed32(v.0), v.1)
    case Fixed64 => var v :- ReadFixed64(s); Done(UnknownFixed64(v.0), v.1)
    case LengthDelimited => var v :- ReadLengthDelimited(s); Done(UnknownLength(v.0), v.1)
    case StartGroup => Fail(UnexpectedWireType(wire.AsU8()), s)
    case EndGroup => Fail(UnexpectedWireType(wire.AsU8()), s)
  }

  /** The whole read-and-store loop on a set that already weighs `total` bytes. */
  function Collect(s: Cursor, total: nat): (o: Out<seq<Record>>)
    ensures o.Done? ==> Onward(s, o.next) && o.next.rest == []
    decreases |s.rest|, 1
  {
    if s.rest == [] then Done([], s) else CollectAfter(ReadRecord(s), total)
  }

  /** One turn of that loop, once the record has been read or not. */
  function CollectAfter(r: Out<Record>, total: nat): (o: Out<seq<Record>>)
    ensures o.Done? ==> r.Done? && Onward(r.next, o.next) && o.next.rest == []
    decreases if r.Done? then |r.next.rest| + 1 else 0, 0
  {
    match r
    case Fail(e, at) => Fail(e, at)
    case Done(rec, next) =>
      var total' := total + |EncodeRecord(rec)|;
      if !Within(next.limits.maxUnknownBytes, total') then Fail(LimitExceeded(MaxUnknownBytes), next)
      else Prepend([rec], Collect(next, total'))
  }

  /** What the loop has stored when it stops: also the record that takes the set over its limit. */
  function Stored(s: Cursor, total: nat): seq<Record>
    decreases |s.rest|, 1
  {
    if s.rest == [] then [] else StoredAfter(ReadRecord(s), total)
  }

  function StoredAfter(r: Out<Record>, total: nat): seq<Record>
    decreases if r.Done? then |r.next.rest| + 1 else 0, 0
  {
    match r
    case Fail(_, _) => []
    case Done(rec, next) =>
      var total' := total + |EncodeRecord(rec)|;
      if Within(next.limits.maxUnknownBytes, total') then [rec] + Stored(next, total') else [rec]
  }

  lemma {:induction false} StoredIsCollected(s: Cursor, total: nat)
    requires Collect(s, total).Done?
    ensures Stored(s, total) == Collect(s, total).value
    decreases |s.rest|
  {
    hide ReadRecord, EncodeRecord;
    if s.rest != [] {
      var r := ReadRecord(s);
      assert Collect(s, total) == CollectAfter(r, total);
      StoredIsCollected(r.next, total + |EncodeRecord(r.value)|);
    }
  }

  function Prepend(done: seq<Record>, o: Out<seq<Record>>): Out<seq<Record>> {
    if o.Done? then Done(done + o.value, o.next) else o
  }

  // ------------------------------------------------------------- the ordered map

  function Get(m: FieldMap, k: u32): seq<UnknownValue> {
    if k in m then m[k] else []
  }

  function Insert(m: FieldMap, r: Record): FieldMap {
    m[r.field := Get(m, r.field) + [r.value]]
  }

  /** The map after inserting `rs` in order. */
  function Grouped(rs: seq<Record>): FieldMap {
    if rs == [] then map[] else Insert(Grouped(rs[..|rs| - 1]), rs[|rs| - 1])
  }

  predicate NoEmptyList(m: FieldMap) {
    forall k :: k in m ==> m[k] != []
  }

  /** `merge_from` */
  function Merged(a: FieldMap, b: FieldMap): FieldMap {
    map k | k in a.Keys + b.Keys :: Get(a, k) + Get(b, k)
  }

  function Pairs(k: u32, vs: seq<UnknownValue>): seq<Record> {
    if vs == [] then [] else [Record(k, vs[0])] + Pairs(k, vs[1..])
  }

  lemma {:induction false} FindSmallest(ks: set<u32>) returns (k: u32)
    requires ks != {}
    ensures k in ks && forall j :: j in ks ==> k <= j
  {
    var x :| x in ks;
    var others := ks - {x};
    k := x;
    if others != {} {
      var y := FindSmallest(others);
      if y < x { k := y; }
    }
    forall j | j in ks
      ensures k <= j
    {
      if j != x { assert j in others; }
    }
  }

  ghost function Smallest(ks: set<u32>): (k: u32)
    requires ks != {}
    ensures k in ks && forall j :: j in ks ==> k <= j
  {
    assert exists k :: k in ks && forall j :: j in ks ==> k <= j by { var k := FindSmallest(ks); }
    var k :| k in ks && forall j :: j in ks ==> k <= j;
    k
  }

  /** The records in the order `encode` and `iter` visit them: ascending field number. */
  ghost function Emitted(m: FieldMap): seq<Record>
    decreases |m.Keys|
  {
    if m.Keys == {} then [] else
      var k := Smallest(m.Keys);
      assert (m - {k}).Keys == m.Keys - {k};
      Pairs(k, m[k]) + Emitted(m - {k})
  }

  // --------------------------------------------------------- stable sort, as a relation

  /** The values recorded under one field number, in order. */
  function ValuesOf(rs: seq<Record>, k: u32): seq<UnknownValue> {
    if rs == [] then []
    else (if rs[0].field == k then [rs[0].value] else []) + ValuesOf(rs[1..], k)
  }

  predicate Ascending(rs: seq<Record>) {
    forall i, j :: 0 <= i < j < |rs| ==> rs[i].field <= rs[j].field
  }

  ghost predicate IsStableSort(sorted: seq<Record>, rs: seq<Record>) {
    Ascending(sorted) && forall k :: ValuesOf(sorted, k) == ValuesOf(rs, k)
  }

  lemma {:induction false} ValuesOfConcat(a: seq<Record>, b: seq<Record>, k: u32)
    ensures ValuesOf(a + b, k) == ValuesOf(a, k) + ValuesOf(b, k)
  {
    if a == [] {
      assert a + b == b;
    } else {
      assert (a + b)[1..] == a[1..] + b;
      ValuesOfConcat(a[1..], b, k);
      Assoc(if a[0].field == k then [a[0].value] else [], ValuesOf(a[1..], k), ValuesOf(b, k));
    }
  }

  lemma {:induction false} ValuesOfPairs(f: u32, vs: seq<UnknownValue>, k: u32)
    ensures ValuesOf(Pairs(f, vs), k) == if f == k then vs else []
  {
    if vs != [] { ValuesOfPairs(f, vs[1..], k); }
  }

  lemma ValuesOfSnoc(init: seq<Record>, last: Record, k: u32)
    ensures ValuesOf(init + [last], k) == ValuesOf(init, k) + (if last.field == k then [last.value] else [])
  {
    ValuesOfConcat(init, [last], k);
    assert [last][1..] == [];
  }

  lemma {:induction false} GroupedMeaning(rs: seq<Record>, k: u32)
    ensures Get(Grouped(rs), k) == ValuesOf(rs, k)
    ensures NoEmptyList(Grouped(rs))
  {
    if rs != [] {
      hide ValuesOf;
      var init, last := rs[..|rs| - 1], rs[|rs| - 1];
      GroupedMeaning(init, k);
      assert rs == init + [last];
      ValuesOfSnoc(init, last, k);
    }
  }

  lemma {:induction false} EmittedMeaning(m: FieldMap, k: u32)
    ensures ValuesOf(Emitted(m), k) == Get(m, k)
    decreases |m.Keys|
  {
    if m.Keys != {} {
      var s := Smallest(m.Keys);
      var rest := m - {s};
      assert rest.Keys == m.Keys - {s};
      EmittedMeaning(rest, k);
      ValuesOfPairs(s, m[s], k);
      ValuesOfConcat(Pairs(s, m[s]), Emitted(rest), k);
    }
  }

  lemma {:induction false} PairsFields(k: u32, vs: seq<UnknownValue>)
    ensures |Pairs(k, vs)| == |vs|
    ensures forall r :: r in Pairs(k, vs) ==> r.field == k
  {
    if vs != [] { PairsFields(k, vs[1..]); }
  }

  lemma {:induction false} EmittedAscending(m: FieldMap)
    ensures Ascending(Emitted(m))
    ensures forall r :: r in Emitted(m) ==> r.field in m
    decreases |m.Keys|
  {
    if m.Keys != {} {
      var s := Smallest(m.Keys);
      var rest := m - {s};
      assert rest.Keys == m.Keys - {s};
      EmittedAscending(rest);
      PairsFields(s, m[s]);
      var a: seq<Record>, b: seq<Record> := Pairs(s, m[s]), Emitted(rest);
      forall i, j | 0 <= i < j < |a + b|
        ensures (a + b)[i].field <= (a + b)[j].field
      {
        if j < |a| { assert a[i] in a && a[j] in a; }
        else if i < |a| { assert a[i] in a && b[j - |a|] in b; }
      }
    }
  }

  lemma {:induction false} EqualMaps(a: FieldMap, b: FieldMap)
    requires NoEmptyList(a) && NoEmptyList(b) && forall k :: Get(a, k) == Get(b, k)
    ensures a == b
  {
    assert forall k: u32 :: k in a <==> Get(a, k) != [];
    assert forall k: u32 :: k in b <==> Get(b, k) != [];
    assert forall k :: k in a ==> k in b && a[k] == Get(a, k) == Get(b, k) == b[k];
    assert a.Keys == b.Keys;
  }

  /** Emitting the map of `rs` is the stable sort of `rs` by field number. */
  lemma EmittedIsStableSort(rs: seq<Record>)
    ensures IsStableSort(Emitted(Grouped(rs)), rs)
  {
    EmittedAscending(Grouped(rs));
    forall k: u32
      ensures ValuesOf(Emitted(Grouped(rs)), k) == ValuesOf(rs, k)
    {
      EmittedMeaning(Grouped(rs), k);
      GroupedMeaning(rs, k);
    }
  }

  /** Re-inserting what was emitted rebuilds the map. */
  lemma RegroupEmitted(m: FieldMap)
    requires NoEmptyList(m)
    ensures Grouped(Emitted(m)) == m
  {
    forall k: u32
      ensures Get(Grouped(Emitted(m)), k) == Get(m, k)
    {
      GroupedMeaning(Emitted(m), k);
      EmittedMeaning(m, k);
    }
    GroupedMeaning(Emitted(m), 0);
    EqualMaps(Grouped(Emitted(m)), m);
  }

  /** Inserting one log after another is `merge_from`. */
  lemma GroupedConcat(a: seq<Record>, b: seq<Record>)
    ensures Grouped(a + b) == Merged(Grouped(a), Grouped(b))
  {
    GroupedMeaning(a, 0);
    GroupedMeaning(b, 0);
    GroupedMeaning(a + b, 0);
    forall k: u32
      ensures Get(Grouped(a + b), k) == Get(Merged(Grouped(a), Grouped(b)), k)
    {
      GroupedMeaning(a, k);
      GroupedMeaning(b, k);
      GroupedMeaning(a + b, k);
      ValuesOfConcat(a, b, k);
    }
    assert NoEmptyList(Merged(Grouped(a), Grouped(b))) by {
      assert forall k :: k in Grouped(a) ==> Get(Grouped(a), k) != [];
      assert forall k :: k in Grouped(b) ==> Get(Grouped(b), k) != [];
    }
    EqualMaps(Grouped(a + b), Merged(Grouped(a), Grouped(b)));
  }

  // --------------------------------------------------------------------- weight

  lemma {:induction false} EncodeAllConcat(a: seq<Record>, b: seq<Record>)
    ensures EncodeAll(a + b) == EncodeAll(a) + EncodeAll(b)
  {
    if a == [] {
      assert a + b == b;
    } else {
      hide EncodeRecord;
      assert (a + b)[1..] == a[1..] + b;
      EncodeAllConcat(a[1..], b);
      Assoc(EncodeRecord(a[0]), EncodeAll(a[1..]), EncodeAll(b));
    }
  }

  /** Number of bytes `encode` would write. */
  ghost function Weight(m: FieldMap): nat {
    |EncodeAll(Emitted(m))|
  }

  /** Any one field can be taken out: its records weigh the same wherever they stand. */
  lemma {:induction false} WeightSplit(m: FieldMap, k: u32)
    requires k in m
    ensures Weight(m) == |EncodeAll(Pairs(k, m[k]))| + Weight(m - {k})
    ensures |Emitted(m)| == |m[k]| + |Emitted(m - {k})|
    decreases |m.Keys|
  {
    var s := Smallest(m.Keys);
    var rest := m - {s};
    assert rest.Keys == m.Keys - {s};
    EncodeAllConcat(Pairs(s, m[s]), Emitted(rest));
    PairsFields(s, m[s]);
    if k != s {
      WeightSplit(rest, k);
      var less := m - {k};
      assert less.Keys == m.Keys - {k};
      assert s in less.Keys;
      assert Smallest(less.Keys) == s;
      assert less - {s} == rest - {k};
      EncodeAllConcat(Pairs(s, m[s]), Emitted(rest - {k}));
    }
  }

  lemma {:induction false} PairsConcat(k: u32, a: seq<UnknownValue>, b: seq<UnknownValue>)
    ensures Pairs(k, a + b) == Pairs(k, a) + Pairs(k, b)
  {
    if a == [] {
      assert a + b == b;
    } else {
      assert (a + b)[1..] == a[1..] + b;
      PairsConcat(k, a[1..], b);
    }
  }

  lemma WeightExtend(m: FieldMap, k: u32, vs: seq<UnknownValue>)
    requires vs != []
    ensures Weight(m[k := Get(m, k) + vs]) == Weight(m) + |EncodeAll(Pairs(k, vs))|
    ensures |Emitted(m[k := Get(m, k) + vs])| == |Emitted(m)| + |vs|
  {
    hide Weight, Emitted, EncodeAll, Pairs;
    var m' := m[k := Get(m, k) + vs];
    WeightSplit(m', k);
    PairsConcat(k, Get(m, k), vs);
    EncodeAllConcat(Pairs(k, Get(m, k)), Pairs(k, vs));
    if k in m {
      WeightSplit(m, k);
      assert m' - {k} == m - {k};
    } else {
      NoPairs(k);
      assert m' - {k} == m;
    }
  }

  lemma NoPairs(k: u32)
    ensures EncodeAll(Pairs(k, [])) == []
  {
  }

  lemma WeightInsert(m: FieldMap, r: Record)
    ensures Weight(Insert(m, r)) == Weight(m) + |EncodeRecord(r)|
    ensures |Emitted(Insert(m, r))| == |Emitted(m)| + 1
  {
    WeightExtend(m, r.field, [r.value]);
    assert Pairs(r.field, [r.value]) == [r];
    EncodeOne(r);
  }

  lemma GroupedSnoc(init: seq<Record>, last: Record)
    ensures Grouped(init + [last]) == Insert(Grouped(init), last)
  {
    hide Insert;
    assert (init + [last])[..|init|] == init;
  }

  /** One more record weighs what its encoding takes. */
  lemma WeightStep(init: seq<Record>, last: Record)
    requires Weight(Grouped(init)) == |EncodeAll(init)| && |Emitted(Grouped(init))| == |init|
    ensures Weight(Grouped(init + [last])) == |EncodeAll(init + [last])|
    ensures |Emitted(Grouped(init + [last]))| == |init + [last]|
  {
    hide Weight, Emitted, EncodeRecord, EncodeAll, Insert, Grouped;
    GroupedSnoc(init, last);
    WeightInsert(Grouped(init), last);
    EncodeAllConcat(init, [last]);
    EncodeOne(last);
  }

  lemma {:induction false} WeightGrouped(rs: seq<Record>)
    ensures Weight(Grouped(rs)) == |EncodeAll(rs)|
    ensures |Emitted(Grouped(rs))| == |rs|
  {
    hide Weight, Emitted, EncodeAll, Grouped;
    if |rs| == 0 {
      WeighsNothing(rs);
    } else {
      var (init, last) := (rs[..|rs| - 1], rs[|rs| - 1]);
      WeightGrouped(init);
      WeightStep(init, last);
      assert rs == init + [last];
    }
  }

  lemma WeighsNothing(rs: seq<Record>)
    requires |rs| == 0
    ensures Weight(Grouped(rs)) == |EncodeAll(rs)| && |Emitted(Grouped(rs))| == |rs|
  {
    NothingEmitted();
  }

  lemma NothingEmitted()
    ensures Emitted(map[]) == [] && EncodeAll([]) == []
  {
  }

  lemma EncodeOne(r: Record)
    ensures EncodeAll([r]) == EncodeRecord(r)
  {
    hide EncodeRecord;
    assert [r][1..] == [];
  }
}
