/**
 * Schema evolution over time: nothing is lost without a Breaking finding, a schema compared with itself reports
 * nothing, and steps that remove no number without reserving it and drop no JSON name may be chained.
 */
module LintEvolution {
  import opened Wrappers
  import opened WireBasics
  import opened Utf8
  import opened LintFindings
  import opened LintTheorems
  import D = Descriptor

  // ---------------------------------------------------------------------------- ranges

  /** For a range that is not empty, `range_covers_range` is inclusion of the numbers covered. */
  lemma RangeInclusion(startA: i32, endA: i32, startB: i32, endB: i32)
    requires endB == 0 || startB <= endB
    ensures RangeCoversRange(startA, endA, startB, endB) <==>
            forall num: i32 :: RangeCovers(startB, endB, num) ==> RangeCovers(startA, endA, num)
  {
    if forall num: i32 :: RangeCovers(startB, endB, num) ==> RangeCovers(startA, endA, num) {
      assert RangeCovers(startB, endB, startB);
      assert RangeCovers(startB, endB, if endB == 0 then startB else endB);
    }
  }

  lemma KeptRangeCovers(was: D.ReservedRange, news: seq<D.ReservedRange>, num: i32) returns (j: nat)
    requires RangeKept(was, news) && RangeCovers(was.start, was.end, num)
    ensures j < |news| && RangeCovers(news[j].start, news[j].end, num)
  {
    j :| 0 <= j < |news| && RangeCoversRange(news[j].start, news[j].end, was.start, was.end);
  }

  predicate IsReserved(m: D.MessageDescriptor, num: i32) {
    exists i :: 0 <= i < |m.reservedRange| && RangeCovers(m.reservedRange[i].start, m.reservedRange[i].end, num)
  }

  /** On the numbers a field may have, the two tests of the original agree. */
  lemma ReservedTestsAgree(m: D.MessageDescriptor, num: i32)
    requires num >= 1
    ensures NumberReserved(m, num) <==> IsReserved(m, num)
  {
    if NumberReserved(m, num) {
      var i :| 0 <= i < |m.reservedRange| && ReservedBy(m.reservedRange[i], num);
      assert RangeCovers(m.reservedRange[i].start, m.reservedRange[i].end, num);
    }
    if IsReserved(m, num) {
      var i :| 0 <= i < |m.reservedRange| && RangeCovers(m.reservedRange[i].start, m.reservedRange[i].end, num);
      assert ReservedBy(m.reservedRange[i], num);
    }
  }

  lemma ReservedStays(was: D.MessageDescriptor, now: D.MessageDescriptor, num: i32)
    requires ReservationsKept(was, now) && IsReserved(was, num)
    ensures IsReserved(now, num)
  {
    hide RangeKept;
    var i :| 0 <= i < |was.reservedRange| && RangeCovers(was.reservedRange[i].start, was.reservedRange[i].end, num);
    var j := KeptRangeCovers(was.reservedRange[i], now.reservedRange, num);
  }

  lemma RangeKeptTwice(a: D.ReservedRange, bs: seq<D.ReservedRange>, cs: seq<D.ReservedRange>)
    requires RangeKept(a, bs) && forall i :: 0 <= i < |bs| ==> RangeKept(bs[i], cs)
    ensures RangeKept(a, cs)
  {
    var i :| 0 <= i < |bs| && RangeCoversRange(bs[i].start, bs[i].end, a.start, a.end);
    var j :| 0 <= j < |cs| && RangeCoversRange(cs[j].start, cs[j].end, bs[i].start, bs[i].end);
    assert RangeCoversRange(cs[j].start, cs[j].end, a.start, a.end);
  }

  // -------------------------------------------------------------------- nothing is lost

  /** The message at a path of names, the first of each name. */
  function Lookup(ms: seq<D.MessageDescriptor>, path: seq<Option<Str>>): Option<D.MessageDescriptor>
    decreases |path|
  {
    if |path| == 0 then None
    else
      var found := Find(MessageNames(ms), path[0]);
      if found.None? then None
      else if |path| == 1 then Some(ms[found.value])
      else Lookup(ms[found.value].nestedType, path[1..])
  }

  predicate DistinctNumbers(fs: seq<D.FieldDescriptor>) {
    forall i, j :: 0 <= i < j < |fs| ==> Number(fs[i]) != Number(fs[j])
  }

  lemma {:induction false} ByNumberFinds(fs: seq<D.FieldDescriptor>, i: nat)
    requires DistinctNumbers(fs) && i < |fs|
    ensures ByNumber(fs)[Number(fs[i])] == fs[i]
  {
    if i < |fs| - 1 { ByNumberFinds(fs[..|fs| - 1], i); }
  }

  ghost predicate FieldSurvives(f: D.FieldDescriptor, now: D.MessageDescriptor) {
    || Retired(now, f)
    || exists j :: 0 <= j < |now.field| && now.field[j].number == Some(Number(f)) && KeepsMeaning(f, now.field[j])
  }

  /** Every old field is there unchanged or retired, and no reservation or enum number is gone. */
  ghost predicate Survives(was: D.MessageDescriptor, now: D.MessageDescriptor) {
    && (DistinctNumbers(was.field) ==> forall i :: 0 <= i < |was.field| ==> FieldSurvives(was.field[i], now))
    && (forall num: i32 :: IsReserved(was, num) ==> IsReserved(now, num))
    && (forall i :: 0 <= i < |was.reservedName| ==> was.reservedName[i] in now.reservedName)
    && EnumNumbersSurvive(was.enumType, now.enumType)
  }

  ghost predicate EnumNumbersSurvive(olds: seq<D.EnumDescriptor>, news: seq<D.EnumDescriptor>) {
    forall i :: 0 <= i < |olds| && Find(EnumNames(olds), olds[i].name) == Some(i) ==>
      exists j :: 0 <= j < |news| && news[j].name == olds[i].name && EnumKept(olds[i], news[j])
  }

  lemma EnumsSurvive(olds: seq<D.EnumDescriptor>, news: seq<D.EnumDescriptor>)
    requires EnumsKept(olds, news)
    ensures EnumNumbersSurvive(olds, news)
  {
    hide EnumKept;
    forall i | 0 <= i < |olds| && Find(EnumNames(olds), olds[i].name) == Some(i)
      ensures exists j :: 0 <= j < |news| && news[j].name == olds[i].name && EnumKept(olds[i], news[j])
    {
      var j :| 0 <= j < |news| && EnumNames(news)[j] == olds[i].name;
      assert EnumKept(olds[i], news[j]);
    }
  }

  lemma CompatibleSurvives(was: D.MessageDescriptor, now: D.MessageDescriptor)
    requires Compatible(was, now)
    ensures Survives(was, now)
  {
    hide ByNumber, KeepsMeaning, RangeKept, EnumKept, CompatibleAll, Retired, IsReserved;
    EnumsSurvive(was.enumType, now.enumType);
    forall num: i32 | IsReserved(was, num)
      ensures IsReserved(now, num)
    {
      ReservedStays(was, now, num);
    }
    if DistinctNumbers(was.field) {
      forall i | 0 <= i < |was.field|
        ensures FieldSurvives(was.field[i], now)
      {
        ByNumberFinds(was.field, i);
        if HasNumber(now.field, Number(was.field[i])) {
          var j :| 0 <= j < |now.field| && now.field[j].number == Some(Number(was.field[i]));
          assert KeepsMeaning(was.field[i], now.field[j]);
        }
      }
    }
  }

  lemma {:induction false} LookupCompatible(olds: seq<D.MessageDescriptor>, news: seq<D.MessageDescriptor>,
                                          path: seq<Option<Str>>)
    requires CompatibleAll(olds, news) && Lookup(olds, path).Some?
    ensures Lookup(news, path).Some? && Compatible(Lookup(olds, path).value, Lookup(news, path).value)
    decreases |path|
  {
    hide FieldsKept, ReservationsKept, EnumsKept;
    var i := Find(MessageNames(olds), path[0]).value;
    assert olds[i].name == path[0];
    var j := Find(MessageNames(news), path[0]).value;
    assert news[j].name == path[0];
    assert Compatible(olds[i], news[j]);
    if |path| > 1 { LookupCompatible(olds[i].nestedType, news[j].nestedType, path[1..]); }
  }

  /** Without a Breaking finding, every message at every nesting depth is still there and has lost nothing. */
  lemma NothingLost(was: D.FileDescriptor, now: D.FileDescriptor, path: seq<Option<Str>>)
    requires !HasBreaking(Findings(was, now)) && Lookup(was.messageType, path).Some?
    ensures Lookup(now.messageType, path).Some?
    ensures Survives(Lookup(was.messageType, path).value, Lookup(now.messageType, path).value)
    ensures EnumNumbersSurvive(was.enumType, now.enumType)
  {
    hide HasBreaking, Findings, Survives, Compatible, CompatibleAll;
    BreakingDecides(was, now);
    LookupCompatible(was.messageType, now.messageType, path);
    CompatibleSurvives(Lookup(was.messageType, path).value, Lookup(now.messageType, path).value);
    EnumsSurvive(was.enumType, now.enumType);
  }

  // ---------------------------------------------------------------- well-formed schemas

  predicate Distinct(names: seq<Option<Str>>) {
    forall i, j :: 0 <= i < j < |names| ==> names[i] != names[j]
  }

  lemma FindSelf(names: seq<Option<Str>>, i: nat)
    requires Distinct(names) && i < |names|
    ensures Find(names, names[i]) == Some(i)
  {
  }

  predicate RangeSane(start: i32, end: i32) {
    end == 0 || start <= end
  }

  predicate FieldSane(f: D.FieldDescriptor) {
    f.number.Some?
  }

  /** The number is positive and not among the reserved ones. */
  predicate FieldStrict(m: D.MessageDescriptor, f: D.FieldDescriptor) {
    Number(f) >= 1 && !NumberReserved(m, Number(f))
  }

  predicate MessageSane(m: D.MessageDescriptor, strict: bool) {
    && DistinctNumbers(m.field)
    && (forall i :: 0 <= i < |m.field| ==> FieldSane(m.field[i]) && (strict ==> FieldStrict(m, m.field[i])))
    && (forall i :: 0 <= i < |m.reservedRange| ==> RangeSane(m.reservedRange[i].start, m.reservedRange[i].end))
    && (forall i :: 0 <= i < |m.extensionRange| ==> RangeSane(m.extensionRange[i].start, m.extensionRange[i].end))
    && Distinct(EnumNames(m.enumType)) && Distinct(MessageNames(m.nestedType))
  }

  /**
   * Names and numbers unique, numbers present, ranges not empty; the same inside. In a `strict` schema numbers are
   * also positive, and reserved ones are not used, which the compiler of this repository does not check.
   */
  predicate WellFormed(m: D.MessageDescriptor, strict: bool) {
    MessageSane(m, strict) && forall i :: 0 <= i < |m.nestedType| ==> WellFormed(m.nestedType[i], strict)
  }

  predicate FileWellFormed(f: D.FileDescriptor, strict: bool) {
    && Distinct(MessageNames(f.messageType)) && Distinct(EnumNames(f.enumType)) && Distinct(ServiceNames(f.service))
    && (forall i :: 0 <= i < |f.messageType| ==> WellFormed(f.messageType[i], strict))
    && (forall i :: 0 <= i < |f.service| ==> Distinct(MethodNames(f.service[i].methods)))
  }

  lemma {:induction false} NotStrict(m: D.MessageDescriptor, strict: bool)
    requires WellFormed(m, strict)
    ensures WellFormed(m, false)
  {
    hide NumberReserved, FieldStrict;
    forall i | 0 <= i < |m.nestedType|
      ensures WellFormed(m.nestedType[i], false)
    {
      NotStrict(m.nestedType[i], strict);
    }
  }

  lemma FileNotStrict(f: D.FileDescriptor, strict: bool)
    requires FileWellFormed(f, strict)
    ensures FileWellFormed(f, false)
  {
    hide WellFormed, Distinct;
    forall i | 0 <= i < |f.messageType|
      ensures WellFormed(f.messageType[i], false)
    {
      NotStrict(f.messageType[i], strict);
    }
  }

  // ------------------------------------------------------------------------ reflexivity

  lemma SelfFields(m: D.MessageDescriptor, path: seq<Str>)
    requires MessageSane(m, false)
    ensures MessageFields(m, m, path) == []
  {
    hide Concat, NumberReserved, ByNumber;
    var (news, gone) := (NewFields(ByNumber(m.field), m.field, path), OldFields(m, m.field, path));
    ConcatFacts(news);
    ConcatFacts(gone);
    forall i | 0 <= i < |m.field|
      ensures news[i] == [] && gone[i] == []
    {
      ByNumberFinds(m.field, i);
      assert m.field[i].number == Some(Number(m.field[i]));
    }
    Joined(Concat(news), Concat(gone));
  }

  lemma SelfReservations(m: D.MessageDescriptor, path: seq<Str>)
    requires MessageSane(m, false)
    ensures Reservations(m, m, path) == []
  {
    hide Concat, NumberReserved;
    var (a, b, c) := (ReservedRanges(m, m, path), ReservedNames(m, m, path), ExtensionRanges(m, m, path));
    ConcatFacts(a);
    ConcatFacts(b);
    ConcatFacts(c);
    forall i | 0 <= i < |a|
      ensures a[i] == []
    {
      var r := m.reservedRange[i];
      assert RangeCoversRange(r.start, r.end, r.start, r.end);
    }
    forall i | 0 <= i < |c|
      ensures c[i] == []
    {
      var r := m.extensionRange[i];
      assert RangeCoversRange(r.start, r.end, r.start, r.end);
    }
    Joined3(Concat(a), Concat(b), Concat(c));
  }

  lemma SelfEnums(es: seq<D.EnumDescriptor>, path: seq<Str>)
    requires Distinct(EnumNames(es))
    ensures Enums(es, es, path) == []
  {
    hide Concat, Find, Distinct;
    var (added, gone) := (NewEnums(es, es, path), OldEnums(es, es, path));
    ConcatFacts(added);
    ConcatFacts(gone);
    forall i | 0 <= i < |es|
      ensures added[i] == [] && gone[i] == []
    {
      FindSelf(EnumNames(es), i);
      SelfEnum(es[i], path + [Text(es[i].name)]);
      assert EnumNames(es)[i] == es[i].name;
    }
    Joined(Concat(added), Concat(gone));
  }

  lemma SelfEnum(e: D.EnumDescriptor, at: seq<Str>)
    ensures Concat(ValuesRemoved(e, e, at)) + Concat(ValuesAdded(e, e, at)) == []
  {
    hide Concat;
    ConcatFacts(ValuesRemoved(e, e, at));
    ConcatFacts(ValuesAdded(e, e, at));
  }

  lemma {:induction false} SelfCompared(m: D.MessageDescriptor, at: seq<Str>)
    requires WellFormed(m, false)
    ensures Compared(m, m, at) == []
    decreases m, 0
  {
    hide Concat, MessageFields, Reservations, Enums, MessageSane;
    SelfFields(m, at);
    SelfReservations(m, at);
    MessageNamesDistinct(m);
    SelfEnums(m.enumType, at);
    SelfMessages(m.nestedType, at);
    Joined(Concat(NewMessages(m.nestedType, m.nestedType, at)), Concat(OldMessages(m.nestedType, m.nestedType, at)));
  }

  lemma MessageNamesDistinct(m: D.MessageDescriptor)
    requires MessageSane(m, false)
    ensures Distinct(EnumNames(m.enumType)) && Distinct(MessageNames(m.nestedType))
  {
  }

  lemma {:induction false} SelfMessages(ms: seq<D.MessageDescriptor>, path: seq<Str>)
    requires Distinct(MessageNames(ms)) && forall i :: 0 <= i < |ms| ==> WellFormed(ms[i], false)
    ensures Messages(ms, ms, path) == []
    decreases ms, 1
  {
    hide Concat, Find, Distinct, NewMessage, WellFormed;
    var (added, gone) := (NewMessages(ms, ms, path), OldMessages(ms, ms, path));
    ConcatFacts(added);
    ConcatFacts(gone);
    forall i | 0 <= i < |ms|
      ensures added[i] == [] && gone[i] == []
    {
      SelfMessage(ms, i, path);
      assert MessageNames(ms)[i] == ms[i].name;
    }
    Joined(Concat(added), Concat(gone));
  }

  lemma {:induction false} SelfMessage(ms: seq<D.MessageDescriptor>, i: nat, path: seq<Str>)
    requires Distinct(MessageNames(ms)) && i < |ms| && WellFormed(ms[i], false)
    ensures NewMessage(ms, ms[i], path) == []
    decreases ms[i], 1
  {
    hide Distinct, Compared, WellFormed;
    FindSelf(MessageNames(ms), i);
    SelfCompared(ms[i], path + [Text(ms[i].name)]);
  }

  lemma SelfMethods(ms: seq<D.MethodDescriptor>, path: seq<Str>)
    requires Distinct(MethodNames(ms))
    ensures Methods(ms, ms, path) == []
  {
    hide Concat, Find, Distinct;
    var (added, gone) := (NewMethods(ms, ms, path), OldMethods(ms, ms, path));
    ConcatFacts(added);
    ConcatFacts(gone);
    forall i | 0 <= i < |ms|
      ensures added[i] == [] && gone[i] == []
    {
      FindSelf(MethodNames(ms), i);
      assert MethodCompat(path, ms[i], ms[i]) == [];
      assert MethodNames(ms)[i] == ms[i].name;
    }
    Joined(Concat(added), Concat(gone));
  }

  lemma SelfServices(ss: seq<D.ServiceDescriptor>)
    requires Distinct(ServiceNames(ss)) && forall i :: 0 <= i < |ss| ==> Distinct(MethodNames(ss[i].methods))
    ensures Services(ss, ss) == []
  {
    hide Concat, Find, Distinct, Methods;
    var (added, gone) := (NewServices(ss, ss), OldServices(ss, ss));
    ConcatFacts(added);
    ConcatFacts(gone);
    forall i | 0 <= i < |ss|
      ensures added[i] == [] && gone[i] == []
    {
      FindSelf(ServiceNames(ss), i);
      SelfMethods(ss[i].methods, [Text(ss[i].name)]);
      assert ServiceNames(ss)[i] == ss[i].name;
    }
    Joined(Concat(added), Concat(gone));
  }

  /** A well-formed schema compared with itself reports nothing at all, not even a warning. */
  lemma SelfFindsNothing(f: D.FileDescriptor)
    requires FileWellFormed(f, false)
    ensures Findings(f, f) == []
  {
    hide Messages, Enums, Services, Distinct, WellFormed;
    SelfMessages(f.messageType, []);
    SelfEnums(f.enumType, []);
    SelfServices(f.service);
  }

  /** A field without a number reports itself removed: presence of the numbers cannot be dropped above. */
  lemma NumberlessFieldReportsItself(m: D.MessageDescriptor)
    requires |m.field| == 1 && m.field[0].number.None? && |m.reservedRange| == 0 && |m.reservedName| == 0
    ensures HasBreaking(Compared(m, m, []))
  {
    hide HasBreaking, Compared, Concat;
    ComparedDecides(m, m, []);
    assert !HasNumber(m.field, Number(m.field[0]));
    assert !FieldsKept(m, m);
  }

  /** So does a number that two fields of different names share: it is taken to be reused. */
  lemma SharedNumberReportsItself(m: D.MessageDescriptor)
    requires |m.field| == 2 && Number(m.field[0]) == Number(m.field[1]) && Text(m.field[0].name) != Text(m.field[1].name)
    ensures HasBreaking(Compared(m, m, []))
  {
    hide HasBreaking, Compared, Concat, ReservationsKept, EnumsKept, CompatibleAll;
    ComparedDecides(m, m, []);
    assert m.field[..1] + [m.field[1]] == m.field;
    assert ByNumber(m.field)[Number(m.field[1])] == m.field[1];
    assert Number(m.field[0]) in ByNumber(m.field) && !KeepsMeaning(m.field[1], m.field[0]);
    assert !FieldsKept(m, m);
  }

  /** So does an empty reserved range: it is taken to shrink. */
  lemma EmptyRangeReportsItself(m: D.MessageDescriptor)
    requires |m.reservedRange| == 1 && !RangeSane(m.reservedRange[0].start, m.reservedRange[0].end)
    ensures HasBreaking(Compared(m, m, []))
  {
    hide HasBreaking, Compared, Concat;
    ComparedDecides(m, m, []);
    assert !RangeKept(m.reservedRange[0], m.reservedRange);
    assert !ReservationsKept(m, m);
  }

  // ----------------------------------------------------------------------- transitivity

  /** No field number is gone, at this level; from `strict` schemas it may be once it is reserved as a number. */
  ghost predicate NumbersLastHere(was: D.MessageDescriptor, now: D.MessageDescriptor, strict: bool) {
    forall i :: 0 <= i < |was.field| ==>
      HasNumber(now.field, Number(was.field[i])) || (strict && NumberReserved(now, Number(was.field[i])))
  }

  /** No field loses its JSON name, at this level. */
  ghost predicate KeysLastHere(was: D.MessageDescriptor, now: D.MessageDescriptor) {
    forall i :: 0 <= i < |now.field| && Number(now.field[i]) in ByNumber(was.field)
                && ByNumber(was.field)[Number(now.field[i])].jsonName.Some?
      ==> now.field[i].jsonName.Some?
  }

  /** What a step has to keep, beyond reporting nothing Breaking, for later steps not to go back on it; at every level. */
  ghost predicate Lasting(was: D.MessageDescriptor, now: D.MessageDescriptor, strict: bool)
    decreases now, 0
  {
    && NumbersLastHere(was, now, strict) && KeysLastHere(was, now)
    && LastingAll(was.nestedType, now.nestedType, strict)
  }

  ghost predicate LastingAll(olds: seq<D.MessageDescriptor>, news: seq<D.MessageDescriptor>, strict: bool)
    decreases news, 1
  {
    forall i :: 0 <= i < |news| ==>
      var found := Find(MessageNames(olds), news[i].name);
      found.Some? ==> Lasting(olds[found.value], news[i], strict)
  }

  lemma NumberStaysReserved(b: D.MessageDescriptor, c: D.MessageDescriptor, num: i32)
    requires ReservationsKept(b, c) && NumberReserved(b, num) && num >= 1
    ensures NumberReserved(c, num)
  {
    ReservedTestsAgree(b, num);
    ReservedStays(b, c, num);
    ReservedTestsAgree(c, num);
  }

  /** Where the field of number `num` of `m` is. */
  lemma Place(m: D.MessageDescriptor, num: i32) returns (j: nat)
    requires MessageSane(m, false) && HasNumber(m.field, num)
    ensures j < |m.field| && Number(m.field[j]) == num && num in ByNumber(m.field) && ByNumber(m.field)[num] == m.field[j]
  {
    j :| 0 <= j < |m.field| && m.field[j].number == Some(num);
    ByNumberFinds(m.field, j);
  }

  lemma Relaxed(m: D.MessageDescriptor, strict: bool)
    requires MessageSane(m, strict)
    ensures MessageSane(m, false)
  {
    hide NumberReserved;
  }

  lemma MeaningTwice(a: D.MessageDescriptor, b: D.MessageDescriptor, c: D.MessageDescriptor, i: nat, strict: bool)
    requires MessageSane(a, strict) && MessageSane(b, strict) && MessageSane(c, strict)
    requires FieldsKept(a, b) && FieldsKept(b, c) && ReservationsKept(b, c)
    requires NumbersLastHere(a, b, strict) && KeysLastHere(a, b)
    requires i < |c.field| && Number(c.field[i]) in ByNumber(a.field)
    ensures KeepsMeaning(ByNumber(a.field)[Number(c.field[i])], c.field[i])
  {
    hide RangeKept, NumberReserved, ReservationsKept, Retired, HasNumber;
    var num := Number(c.field[i]);
    var k :| 0 <= k < |a.field| && a.field[k] == ByNumber(a.field)[num];
    if HasNumber(b.field, num) {
      Relaxed(b, strict);
      var j := Place(b, num);
      assert KeepsMeaning(a.field[k], b.field[j]) && KeepsMeaning(b.field[j], c.field[i]);
    } else {
      NumberStaysReserved(b, c, num);
    }
  }

  lemma FieldsTwice(a: D.MessageDescriptor, b: D.MessageDescriptor, c: D.MessageDescriptor, strict: bool)
    requires MessageSane(a, strict) && MessageSane(b, strict) && MessageSane(c, strict)
    requires FieldsKept(a, b) && FieldsKept(b, c) && ReservationsKept(b, c)
    requires NumbersLastHere(a, b, strict) && KeysLastHere(a, b)
    ensures FieldsKept(a, c)
  {
    hide ReservationsKept, KeepsMeaning, MessageSane, NumbersLastHere, KeysLastHere, Retired, HasNumber, NumberReserved;
    forall i | 0 <= i < |c.field| && Number(c.field[i]) in ByNumber(a.field)
      ensures KeepsMeaning(ByNumber(a.field)[Number(c.field[i])], c.field[i])
    {
      MeaningTwice(a, b, c, i, strict);
    }
    forall i | 0 <= i < |a.field|
      ensures HasNumber(c.field, Number(a.field[i])) || Retired(c, a.field[i])
    {
      GoneTwice(a, b, c, i, strict);
    }
  }

  lemma GoneTwice(a: D.MessageDescriptor, b: D.MessageDescriptor, c: D.MessageDescriptor, i: nat, strict: bool)
    requires MessageSane(a, strict) && MessageSane(b, strict) && MessageSane(c, strict) && i < |a.field|
    requires FieldsKept(a, b) && FieldsKept(b, c) && ReservationsKept(b, c)
    requires NumbersLastHere(a, b, strict) && KeysLastHere(a, b)
    ensures HasNumber(c.field, Number(a.field[i])) || Retired(c, a.field[i])
    ensures NumbersLastHere(b, c, strict) ==>
            HasNumber(c.field, Number(a.field[i])) || (strict && NumberReserved(c, Number(a.field[i])))
  {
    hide RangeKept, NumberReserved, ReservationsKept;
    var num := Number(a.field[i]);
    if HasNumber(b.field, num) {
      Relaxed(b, strict);
      var j := Place(b, num);
      ByNumberFinds(a.field, i);
      assert KeepsMeaning(a.field[i], b.field[j]);
    } else {
      NumberStaysReserved(b, c, num);
    }
  }

  lemma ReservationsTwice(a: D.MessageDescriptor, b: D.MessageDescriptor, c: D.MessageDescriptor)
    requires ReservationsKept(a, b) && ReservationsKept(b, c)
    ensures ReservationsKept(a, c)
  {
    hide RangeKept;
    forall i | 0 <= i < |a.reservedRange|
      ensures RangeKept(a.reservedRange[i], c.reservedRange)
    {
      RangeKeptTwice(a.reservedRange[i], b.reservedRange, c.reservedRange);
    }
  }

  lemma EnumsTwice(a: seq<D.EnumDescriptor>, b: seq<D.EnumDescriptor>, c: seq<D.EnumDescriptor>)
    requires EnumsKept(a, b) && EnumsKept(b, c)
    ensures EnumsKept(a, c)
  {
    hide EnumKept;
    forall i | 0 <= i < |a|
      ensures a[i].name in EnumNames(c)
    {
      var j :| 0 <= j < |b| && EnumNames(b)[j] == a[i].name;
      assert b[j].name in EnumNames(c);
    }
    forall k | 0 <= k < |c| && Find(EnumNames(a), c[k].name).Some?
      ensures EnumKept(a[Find(EnumNames(a), c[k].name).value], c[k])
    {
      var i := Find(EnumNames(a), c[k].name).value;
      assert a[i].name == c[k].name && a[i].name in EnumNames(b);
      var j := Find(EnumNames(b), c[k].name).value;
      assert b[j].name == c[k].name;
      assert EnumKept(a[i], b[j]) && EnumKept(b[j], c[k]);
      EnumTwice(a[i], b[j], c[k]);
    }
  }

  lemma EnumTwice(a: D.EnumDescriptor, b: D.EnumDescriptor, c: D.EnumDescriptor)
    requires EnumKept(a, b) && EnumKept(b, c)
    ensures EnumKept(a, c)
  {
    forall i | 0 <= i < |a.value|
      ensures HasValue(c, a.value[i].number)
    {
      var j :| 0 <= j < |b.value| && b.value[j].number == a.value[i].number;
      assert HasValue(c, b.value[j].number);
    }
  }

  lemma LastsTwice(a: D.MessageDescriptor, b: D.MessageDescriptor, c: D.MessageDescriptor, strict: bool)
    requires MessageSane(a, strict) && MessageSane(b, strict) && MessageSane(c, strict)
    requires FieldsKept(a, b) && FieldsKept(b, c) && ReservationsKept(b, c)
    requires NumbersLastHere(a, b, strict) && KeysLastHere(a, b) && NumbersLastHere(b, c, strict) && KeysLastHere(b, c)
    ensures NumbersLastHere(a, c, strict) && KeysLastHere(a, c)
  {
    hide RangeKept, NumberReserved, ReservationsKept, FieldsKept, MessageSane;
    forall i | 0 <= i < |a.field|
      ensures HasNumber(c.field, Number(a.field[i])) || (strict && NumberReserved(c, Number(a.field[i])))
    {
      GoneTwice(a, b, c, i, strict);
    }
    forall i | 0 <= i < |c.field| && Number(c.field[i]) in ByNumber(a.field)
               && ByNumber(a.field)[Number(c.field[i])].jsonName.Some?
      ensures c.field[i].jsonName.Some?
    {
      KeyTwice(a, b, c, i, strict);
    }
  }

  lemma KeyTwice(a: D.MessageDescriptor, b: D.MessageDescriptor, c: D.MessageDescriptor, i: nat, strict: bool)
    requires MessageSane(a, strict) && MessageSane(b, strict) && MessageSane(c, strict)
    requires FieldsKept(a, b) && FieldsKept(b, c) && ReservationsKept(b, c)
    requires NumbersLastHere(a, b, strict) && KeysLastHere(a, b) && KeysLastHere(b, c)
    requires i < |c.field| && Number(c.field[i]) in ByNumber(a.field)
    requires ByNumber(a.field)[Number(c.field[i])].jsonName.Some?
    ensures c.field[i].jsonName.Some?
  {
    hide RangeKept, NumberReserved, ReservationsKept, Retired, HasNumber, FieldsKept;
    var num := Number(c.field[i]);
    var k :| 0 <= k < |a.field| && a.field[k] == ByNumber(a.field)[num];
    if HasNumber(b.field, num) {
      Relaxed(b, strict);
      var j := Place(b, num);
    } else {
      NumberStaysReserved(b, c, num);
    }
  }

  lemma {:induction false} CompatibleTwice(a: D.MessageDescriptor, b: D.MessageDescriptor, c: D.MessageDescriptor,
                                          strict: bool)
    requires WellFormed(a, strict) && WellFormed(b, strict) && WellFormed(c, strict)
    requires Compatible(a, b) && Compatible(b, c) && Lasting(a, b, strict)
    ensures Compatible(a, c)
    ensures Lasting(b, c, strict) ==> Lasting(a, c, strict)
    decreases c, 0
  {
    hide FieldsKept, ReservationsKept, EnumsKept, MessageSane, NumbersLastHere, KeysLastHere, LastingAll, CompatibleAll;
    FieldsTwice(a, b, c, strict);
    ReservationsTwice(a, b, c);
    EnumsTwice(a.enumType, b.enumType, c.enumType);
    CompatibleAllTwice(a.nestedType, b.nestedType, c.nestedType, strict);
    if Lasting(b, c, strict) { LastsTwice(a, b, c, strict); }
  }

  lemma {:induction false} CompatibleAllTwice(a: seq<D.MessageDescriptor>, b: seq<D.MessageDescriptor>,
                                             c: seq<D.MessageDescriptor>, strict: bool)
    requires forall i :: 0 <= i < |a| ==> WellFormed(a[i], strict)
    requires forall i :: 0 <= i < |b| ==> WellFormed(b[i], strict)
    requires forall i :: 0 <= i < |c| ==> WellFormed(c[i], strict)
    requires CompatibleAll(a, b) && CompatibleAll(b, c) && LastingAll(a, b, strict)
    ensures CompatibleAll(a, c)
    ensures LastingAll(b, c, strict) ==> LastingAll(a, c, strict)
    decreases c, 1
  {
    hide Compatible, Lasting, WellFormed;
    forall i | 0 <= i < |a|
      ensures a[i].name in MessageNames(c)
    {
      var j :| 0 <= j < |b| && MessageNames(b)[j] == a[i].name;
      assert b[j].name in MessageNames(c);
    }
    forall k | 0 <= k < |c| && Find(MessageNames(a), c[k].name).Some?
      ensures Compatible(a[Find(MessageNames(a), c[k].name).value], c[k])
      ensures LastingAll(b, c, strict) ==> Lasting(a[Find(MessageNames(a), c[k].name).value], c[k], strict)
    {
      var i := Find(MessageNames(a), c[k].name).value;
      assert a[i].name == c[k].name && a[i].name in MessageNames(b);
      var j := Find(MessageNames(b), c[k].name).value;
      assert b[j].name == c[k].name;
      assert Compatible(a[i], b[j]) && Compatible(b[j], c[k]) && Lasting(a[i], b[j], strict);
      CompatibleTwice(a[i], b[j], c[k], strict);
    }
  }

  lemma MethodsTwice(a: seq<D.MethodDescriptor>, b: seq<D.MethodDescriptor>, c: seq<D.MethodDescriptor>)
    requires MethodsKept(a, b) && MethodsKept(b, c)
    ensures MethodsKept(a, c)
  {
    forall i | 0 <= i < |a|
      ensures a[i].name in MethodNames(c)
    {
      var j :| 0 <= j < |b| && MethodNames(b)[j] == a[i].name;
      assert b[j].name in MethodNames(c);
    }
    forall k | 0 <= k < |c| && Find(MethodNames(a), c[k].name).Some?
      ensures SameMethod(a[Find(MethodNames(a), c[k].name).value], c[k])
    {
      var i := Find(MethodNames(a), c[k].name).value;
      assert a[i].name == c[k].name && a[i].name in MethodNames(b);
      var j := Find(MethodNames(b), c[k].name).value;
      assert b[j].name == c[k].name;
      assert SameMethod(a[i], b[j]) && SameMethod(b[j], c[k]);
    }
  }

  lemma ServicesTwice(a: seq<D.ServiceDescriptor>, b: seq<D.ServiceDescriptor>, c: seq<D.ServiceDescriptor>)
    requires ServicesKept(a, b) && ServicesKept(b, c)
    ensures ServicesKept(a, c)
  {
    hide MethodsKept;
    forall i | 0 <= i < |a|
      ensures a[i].name in ServiceNames(c)
    {
      var j :| 0 <= j < |b| && ServiceNames(b)[j] == a[i].name;
      assert b[j].name in ServiceNames(c);
    }
    forall k | 0 <= k < |c| && Find(ServiceNames(a), c[k].name).Some?
      ensures MethodsKept(a[Find(ServiceNames(a), c[k].name).value].methods, c[k].methods)
    {
      var i := Find(ServiceNames(a), c[k].name).value;
      assert a[i].name == c[k].name && a[i].name in ServiceNames(b);
      var j := Find(ServiceNames(b), c[k].name).value;
      assert b[j].name == c[k].name;
      MethodsTwice(a[i].methods, b[j].methods, c[k].methods);
    }
  }

  /** A step that reports nothing Breaking, loses no number it should keep and no JSON name. */
  ghost predicate Evolves(was: D.FileDescriptor, now: D.FileDescriptor, strict: bool) {
    !HasBreaking(Findings(was, now)) && LastingAll(was.messageType, now.messageType, strict)
  }

  /** Steps compose: over any number of them the last schema still may replace the first. */
  lemma EvolvesTransitive(a: D.FileDescriptor, b: D.FileDescriptor, c: D.FileDescriptor, strict: bool)
    requires FileWellFormed(a, strict) && FileWellFormed(b, strict) && FileWellFormed(c, strict)
    requires Evolves(a, b, strict) && !HasBreaking(Findings(b, c))
    ensures !HasBreaking(Findings(a, c))
    ensures Evolves(b, c, strict) ==> Evolves(a, c, strict)
  {
    hide HasBreaking, Findings, CompatibleAll, EnumsKept, ServicesKept, WellFormed, Distinct, LastingAll;
    BreakingDecides(a, b);
    BreakingDecides(b, c);
    BreakingDecides(a, c);
    CompatibleAllTwice(a.messageType, b.messageType, c.messageType, strict);
    EnumsTwice(a.enumType, b.enumType, c.enumType);
    ServicesTwice(a.service, b.service, c.service);
  }

  lemma EvolvesReflexive(f: D.FileDescriptor, strict: bool)
    requires FileWellFormed(f, false)
    ensures Evolves(f, f, strict)
  {
    hide Findings, WellFormed, Distinct, Lasting;
    SelfFindsNothing(f);
    forall i | 0 <= i < |f.messageType|
      ensures Find(MessageNames(f.messageType), f.messageType[i].name) == Some(i)
      ensures Lasting(f.messageType[i], f.messageType[i], strict)
    {
      FindSelf(MessageNames(f.messageType), i);
      SelfLasts(f.messageType[i], strict);
    }
  }

  lemma {:induction false} SelfLasts(m: D.MessageDescriptor, strict: bool)
    requires WellFormed(m, false)
    ensures Lasting(m, m, strict)
  {
    hide NumberReserved, Find, ByNumber;
    forall i | 0 <= i < |m.field|
      ensures HasNumber(m.field, Number(m.field[i]))
      ensures ByNumber(m.field)[Number(m.field[i])] == m.field[i]
    {
      assert m.field[i].number == Some(Number(m.field[i]));
      ByNumberFinds(m.field, i);
    }
    forall i | 0 <= i < |m.nestedType|
      ensures Find(MessageNames(m.nestedType), m.nestedType[i].name) == Some(i)
      ensures Lasting(m.nestedType[i], m.nestedType[i], strict)
    {
      FindSelf(MessageNames(m.nestedType), i);
      SelfLasts(m.nestedType[i], strict);
    }
  }
}
