/**
 * How long a step without Breaking findings lasts (lint/lib.rs): exactly when later compatible steps stay compatible
 * with the original schema, and the two ways in which accepted steps fail to.
 */
module LintReservation {
  import opened Wrappers
  import opened WireBasics
  import opened Utf8
  import opened LintFindings
  import opened LintTheorems
  import opened LintEvolution
  import D = Descriptor

  function OtherName(s: Str): (t: Str)
    ensures t != s
  {
    assert IsUtf8([97]);
    if s == [] then [97] else []
  }

  lemma SelfCompatible(m: D.MessageDescriptor, strict: bool)
    requires WellFormed(m, strict)
    ensures Compatible(m, m)
  {
    hide WellFormed, Compared, Compatible;
    NotStrict(m, strict);
    SelfCompared(m, []);
    ComparedDecides(m, m, []);
    NoneBreaking();
  }

  // ---------------------------------------------------------------- going back on a step

  predicate Reusable(was: D.MessageDescriptor, now: D.MessageDescriptor, i: nat, strict: bool) {
    && i < |was.field| && !HasNumber(now.field, Number(was.field[i]))
    && !(strict && NumberReserved(now, Number(was.field[i])))
  }

  /** A message with one more field, under the number of a field that `was` had and `now` lets be used again. */
  function Reused(was: D.MessageDescriptor, now: D.MessageDescriptor, i: nat): D.MessageDescriptor
    requires i < |was.field|
  {
    now.(field := now.field + [was.field[i].(name := Some(OtherName(Text(was.field[i].name))))])
  }

  lemma ReusedFieldsDiffer(was: D.MessageDescriptor, now: D.MessageDescriptor, i: nat, strict: bool)
    requires MessageSane(was, strict) && MessageSane(now, strict) && Reusable(was, now, i, strict)
    ensures !FieldsKept(was, Reused(was, now, i))
  {
    hide NumberReserved, HasNumber;
    var later := Reused(was, now, i);
    ByNumberFinds(was.field, i);
    assert Number(later.field[|now.field|]) in ByNumber(was.field);
  }

  lemma ReusedSane(was: D.MessageDescriptor, now: D.MessageDescriptor, i: nat, strict: bool)
    requires MessageSane(was, strict) && MessageSane(now, strict) && Reusable(was, now, i, strict)
    ensures MessageSane(Reused(was, now, i), strict)
  {
    var later := Reused(was, now, i);
    assert forall num: i32 :: NumberReserved(later, num) == NumberReserved(now, num);
    forall j | 0 <= j < |now.field|
      ensures Number(now.field[j]) != Number(was.field[i])
    {
      assert now.field[j].number == Some(Number(now.field[j]));
    }
  }

  lemma ReusedKeeps(was: D.MessageDescriptor, now: D.MessageDescriptor, i: nat, strict: bool)
    requires MessageSane(was, strict) && MessageSane(now, strict) && Reusable(was, now, i, strict)
    ensures FieldsKept(now, Reused(was, now, i))
  {
    hide NumberReserved;
    var later := Reused(was, now, i);
    forall j | 0 <= j < |later.field| && Number(later.field[j]) in ByNumber(now.field)
      ensures KeepsMeaning(ByNumber(now.field)[Number(later.field[j])], later.field[j])
    {
      if j < |now.field| {
        ByNumberFinds(now.field, j);
      }
    }
    forall j | 0 <= j < |now.field|
      ensures HasNumber(later.field, Number(now.field[j]))
    {
      assert later.field[j].number == Some(Number(now.field[j]));
    }
  }

  predicate KeyLost(was: D.MessageDescriptor, now: D.MessageDescriptor, i: nat) {
    && i < |now.field| && Number(now.field[i]) in ByNumber(was.field)
    && ByNumber(was.field)[Number(now.field[i])].jsonName.Some? && now.field[i].jsonName.None?
  }

  /** The message with another JSON name on a field that has lost the one it had. */
  function Rekeyed(was: D.MessageDescriptor, now: D.MessageDescriptor, i: nat): D.MessageDescriptor
    requires KeyLost(was, now, i)
  {
    var key := ByNumber(was.field)[Number(now.field[i])].jsonName.value;
    now.(field := now.field[i := now.field[i].(jsonName := Some(OtherName(key)))])
  }

  lemma RekeyedFieldsDiffer(was: D.MessageDescriptor, now: D.MessageDescriptor, i: nat)
    requires KeyLost(was, now, i)
    ensures !FieldsKept(was, Rekeyed(was, now, i))
  {
    hide ByNumber, HasNumber;
    var later := Rekeyed(was, now, i);
    assert Number(later.field[i]) == Number(now.field[i]);
    assert !KeepsMeaning(ByNumber(was.field)[Number(later.field[i])], later.field[i]);
  }

  lemma RekeyedSane(was: D.MessageDescriptor, now: D.MessageDescriptor, i: nat, strict: bool)
    requires MessageSane(now, strict) && KeyLost(was, now, i)
    ensures MessageSane(Rekeyed(was, now, i), strict)
  {
    hide ByNumber;
    var later := Rekeyed(was, now, i);
    assert forall num: i32 :: NumberReserved(later, num) == NumberReserved(now, num);
    assert forall j :: 0 <= j < |now.field| ==> later.field[j].number == now.field[j].number;
  }

  lemma RekeyedKeeps(was: D.MessageDescriptor, now: D.MessageDescriptor, i: nat, strict: bool)
    requires MessageSane(now, strict) && KeyLost(was, now, i)
    ensures FieldsKept(now, Rekeyed(was, now, i))
  {
    hide NumberReserved, KeepsMeaning, ByNumber, MessageSane;
    var later := Rekeyed(was, now, i);
    forall j | 0 <= j < |later.field|
      ensures Number(later.field[j]) in ByNumber(now.field)
      ensures KeepsMeaning(ByNumber(now.field)[Number(later.field[j])], later.field[j])
      ensures HasNumber(later.field, Number(now.field[j]))
    {
      RekeyedAt(was, now, i, j, strict);
    }
  }

  lemma RekeyedAt(was: D.MessageDescriptor, now: D.MessageDescriptor, i: nat, j: nat, strict: bool)
    requires MessageSane(now, strict) && KeyLost(was, now, i) && j < |now.field|
    ensures var later := Rekeyed(was, now, i);
            && later.field[j].number == now.field[j].number == Some(Number(now.field[j]))
            && Number(later.field[j]) in ByNumber(now.field) && HasNumber(later.field, Number(now.field[j]))
            && KeepsMeaning(ByNumber(now.field)[Number(later.field[j])], later.field[j])
  {
    hide NumberReserved;
    var later := Rekeyed(was, now, i);
    ByNumberFinds(now.field, j);
    assert later.field[j].number == now.field[j].number == Some(Number(now.field[j]));
  }

  /** The parts of a message other than its fields and nested messages are compatible with themselves. */
  lemma SameRest(m: D.MessageDescriptor, m': D.MessageDescriptor)
    requires Compatible(m, m) && m'.reservedRange == m.reservedRange && m'.reservedName == m.reservedName
    requires m'.enumType == m.enumType
    ensures ReservationsKept(m, m') && EnumsKept(m.enumType, m'.enumType)
    ensures m'.field == m.field ==> FieldsKept(m, m')
    ensures m'.nestedType == m.nestedType ==> CompatibleAll(m.nestedType, m'.nestedType)
  {
    hide EnumsKept, CompatibleAll, RangeKept, ByNumber, KeepsMeaning;
  }

  lemma Distincts(m: D.MessageDescriptor, strict: bool)
    requires WellFormed(m, strict)
    ensures Distinct(MessageNames(m.nestedType))
    ensures forall i :: 0 <= i < |m.nestedType| ==> WellFormed(m.nestedType[i], strict)
  {
  }

  /** The message with one nested message replaced by a compatible one of the same name. */
  lemma NestedReplaced(m: D.MessageDescriptor, k: nat, inner: D.MessageDescriptor, strict: bool)
    requires WellFormed(m, strict) && k < |m.nestedType| && WellFormed(inner, strict) && inner.name == m.nestedType[k].name
    requires Compatible(m.nestedType[k], inner)
    ensures var m' := m.(nestedType := m.nestedType[k := inner]);
            WellFormed(m', strict) && Compatible(m, m') && MessageNames(m'.nestedType) == MessageNames(m.nestedType)
  {
    var m' := m.(nestedType := m.nestedType[k := inner]);
    NestedReplacedNames(m.nestedType, k, inner);
    NestedReplacedSane(m, k, inner, strict);
    SelfCompatible(m, strict);
    SameRest(m, m');
    NestedReplacedCompatible(m.nestedType, k, inner, strict) by { Distincts(m, strict); }
    hide FieldsKept, ReservationsKept, EnumsKept, CompatibleAll, WellFormed;
  }

  lemma NestedReplacedNames(ms: seq<D.MessageDescriptor>, k: nat, inner: D.MessageDescriptor)
    requires k < |ms| && inner.name == ms[k].name
    ensures MessageNames(ms[k := inner]) == MessageNames(ms)
  {
  }

  lemma NestedReplacedSane(m: D.MessageDescriptor, k: nat, inner: D.MessageDescriptor, strict: bool)
    requires WellFormed(m, strict) && k < |m.nestedType| && WellFormed(inner, strict) && inner.name == m.nestedType[k].name
    ensures WellFormed(m.(nestedType := m.nestedType[k := inner]), strict)
  {
    var m' := m.(nestedType := m.nestedType[k := inner]);
    NestedReplacedNames(m.nestedType, k, inner);
    assert MessageSane(m', strict) by {
      assert forall num: i32 :: NumberReserved(m', num) == NumberReserved(m, num);
    }
    forall i | 0 <= i < |m'.nestedType|
      ensures WellFormed(m'.nestedType[i], strict)
    {
      if i != k { assert m'.nestedType[i] == m.nestedType[i]; }
    }
  }

  lemma NestedReplacedCompatible(ms: seq<D.MessageDescriptor>, k: nat, inner: D.MessageDescriptor, strict: bool)
    requires k < |ms| && inner.name == ms[k].name && Compatible(ms[k], inner)
    requires Distinct(MessageNames(ms)) && forall i :: 0 <= i < |ms| ==> WellFormed(ms[i], strict)
    ensures CompatibleAll(ms, ms[k := inner])
  {
    hide Compatible, WellFormed;
    var ms' := ms[k := inner];
    NestedReplacedNames(ms, k, inner);
    forall i | 0 <= i < |ms'|
      ensures Find(MessageNames(ms), ms'[i].name) == Some(i) && Compatible(ms[i], ms'[i])
    {
      FindSelf(MessageNames(ms), i);
      if i != k { SelfCompatible(ms[i], strict); }
    }
    forall i | 0 <= i < |ms|
      ensures ms[i].name in MessageNames(ms')
    {
      assert MessageNames(ms')[i] == ms[i].name;
    }
  }

  /** From what a step loses at any depth, a later schema that the checker lets through and should not have. */
  lemma {:induction false} Reopen(was: D.MessageDescriptor, now: D.MessageDescriptor, strict: bool)
    returns (later: D.MessageDescriptor)
    requires WellFormed(was, strict) && WellFormed(now, strict) && Compatible(was, now) && !Lasting(was, now, strict)
    ensures WellFormed(later, strict) && later.name == now.name && Compatible(now, later) && !Compatible(was, later)
    decreases now
  {
    hide FieldsKept, ReservationsKept, EnumsKept, CompatibleAll, MessageSane, NumberReserved, ByNumber;
    if i :| Reusable(was, now, i, strict) {
      later := Reused(was, now, i);
      ReusedFieldsDiffer(was, now, i, strict);
      ReusedSane(was, now, i, strict);
      ReusedKeeps(was, now, i, strict);
      SelfCompatible(now, strict);
      SameRest(now, later);
    } else if i :| KeyLost(was, now, i) {
      later := Rekeyed(was, now, i);
      RekeyedFieldsDiffer(was, now, i);
      RekeyedSane(was, now, i, strict);
      RekeyedKeeps(was, now, i, strict);
      SelfCompatible(now, strict);
      SameRest(now, later);
    } else {
      assert NumbersLastHere(was, now, strict) && KeysLastHere(was, now) by { HereOr(was, now, strict); }
      var k := DropsAt(was.nestedType, now.nestedType, strict);
      var j := Find(MessageNames(was.nestedType), now.nestedType[k].name).value;
      CompatibleAt(was.nestedType, now.nestedType, k);
      var inner := Reopen(was.nestedType[j], now.nestedType[k], strict);
      later := now.(nestedType := now.nestedType[k := inner]);
      NestedReplaced(now, k, inner, strict);
      if CompatibleAll(was.nestedType, later.nestedType) {
        CompatibleAt(was.nestedType, later.nestedType, k);
        assert false;
      }
    }
  }

  lemma HereOr(was: D.MessageDescriptor, now: D.MessageDescriptor, strict: bool)
    ensures NumbersLastHere(was, now, strict) || exists i :: Reusable(was, now, i, strict)
    ensures KeysLastHere(was, now) || exists i :: KeyLost(was, now, i)
  {
    hide ByNumber, HasNumber, NumberReserved;
    if !NumbersLastHere(was, now, strict) {
      var i :| 0 <= i < |was.field| && !HasNumber(now.field, Number(was.field[i]))
               && !(strict && NumberReserved(now, Number(was.field[i])));
      assert Reusable(was, now, i, strict);
    }
    if !KeysLastHere(was, now) {
      var i :| 0 <= i < |now.field| && Number(now.field[i]) in ByNumber(was.field)
               && ByNumber(was.field)[Number(now.field[i])].jsonName.Some? && now.field[i].jsonName.None?;
      assert KeyLost(was, now, i);
    }
  }

  lemma DropsAt(olds: seq<D.MessageDescriptor>, news: seq<D.MessageDescriptor>, strict: bool) returns (k: nat)
    requires !LastingAll(olds, news, strict)
    ensures k < |news| && Find(MessageNames(olds), news[k].name).Some?
    ensures !Lasting(olds[Find(MessageNames(olds), news[k].name).value], news[k], strict)
  {
    hide Lasting;
    k :| 0 <= k < |news| && Find(MessageNames(olds), news[k].name).Some?
         && !Lasting(olds[Find(MessageNames(olds), news[k].name).value], news[k], strict);
  }

  lemma CompatibleAt(olds: seq<D.MessageDescriptor>, news: seq<D.MessageDescriptor>, k: nat)
    requires CompatibleAll(olds, news) && k < |news| && Find(MessageNames(olds), news[k].name).Some?
    ensures Compatible(olds[Find(MessageNames(olds), news[k].name).value], news[k])
  {
    hide Compatible;
  }

  /**
   * A compatible step keeps every later compatible step compatible with the original if and only if, at every nesting
   * depth, it loses no JSON name and no field number; among schemas that leave reserved numbers unused it may remove
   * the numbers that it reserves as numbers.
   */
  lemma ChainsIffLasting(was: D.MessageDescriptor, now: D.MessageDescriptor, strict: bool)
    requires WellFormed(was, strict) && WellFormed(now, strict) && Compatible(was, now)
    ensures (forall later :: WellFormed(later, strict) && Compatible(now, later) ==> Compatible(was, later))
            <==> Lasting(was, now, strict)
  {
    hide WellFormed, Compatible, Lasting;
    if Lasting(was, now, strict) {
      forall later | WellFormed(later, strict) && Compatible(now, later)
        ensures Compatible(was, later)
      {
        CompatibleTwice(was, now, later, strict);
      }
    } else {
      var later := Reopen(was, now, strict);
    }
  }

  /** The file with one message replaced by a compatible one of the same name. */
  lemma FileReplaced(f: D.FileDescriptor, k: nat, inner: D.MessageDescriptor, strict: bool)
    requires FileWellFormed(f, strict) && k < |f.messageType| && WellFormed(inner, strict)
    requires inner.name == f.messageType[k].name && Compatible(f.messageType[k], inner)
    ensures var f' := f.(messageType := f.messageType[k := inner]);
            FileWellFormed(f', strict) && !HasBreaking(Findings(f, f'))
  {
    hide Compatible, WellFormed, CompatibleAll, EnumsKept, ServicesKept, Findings, HasBreaking, Distinct;
    var f' := f.(messageType := f.messageType[k := inner]);
    NestedReplacedNames(f.messageType, k, inner);
    NestedReplacedCompatible(f.messageType, k, inner, strict);
    FileNotStrict(f, strict);
    SelfFindsNothing(f);
    NoneBreaking();
    BreakingDecides(f, f);
    BreakingDecides(f, f');
  }

  /** From a message that a step does not last for, a later file that is let through and should not be. */
  lemma ReopenFile(was: D.FileDescriptor, now: D.FileDescriptor, strict: bool) returns (later: D.FileDescriptor)
    requires FileWellFormed(was, strict) && FileWellFormed(now, strict) && !HasBreaking(Findings(was, now))
    requires !LastingAll(was.messageType, now.messageType, strict)
    ensures FileWellFormed(later, strict) && !HasBreaking(Findings(now, later)) && HasBreaking(Findings(was, later))
  {
    hide Compatible, WellFormed, CompatibleAll, EnumsKept, ServicesKept, Findings, HasBreaking, Distinct, Find;
    hide Lasting, LastingAll;
    BreakingDecides(was, now);
    var k := DropsAt(was.messageType, now.messageType, strict);
    var j := Find(MessageNames(was.messageType), now.messageType[k].name).value;
    CompatibleAt(was.messageType, now.messageType, k);
    var inner := Reopen(was.messageType[j], now.messageType[k], strict);
    later := now.(messageType := now.messageType[k := inner]);
    FileReplaced(now, k, inner, strict);
    BreakingDecides(was, later);
    if CompatibleAll(was.messageType, later.messageType) {
      CompatibleAt(was.messageType, later.messageType, k);
      assert false;
    }
  }

  /**
   * What `lint` lets through stays let through: a step without a Breaking finding keeps every later such step free of
   * Breaking findings against the original if and only if no message of the file, at any depth, loses a JSON name or a
   * field number; among files that leave reserved numbers unused, the numbers reserved as numbers may go.
   */
  lemma FileChainsIffLasting(was: D.FileDescriptor, now: D.FileDescriptor, strict: bool)
    requires FileWellFormed(was, strict) && FileWellFormed(now, strict) && !HasBreaking(Findings(was, now))
    ensures (forall later :: FileWellFormed(later, strict) && !HasBreaking(Findings(now, later))
                             ==> !HasBreaking(Findings(was, later)))
            <==> LastingAll(was.messageType, now.messageType, strict)
  {
    hide FileWellFormed, HasBreaking, Findings, LastingAll;
    if LastingAll(was.messageType, now.messageType, strict) {
      forall later | FileWellFormed(later, strict) && !HasBreaking(Findings(now, later))
        ensures !HasBreaking(Findings(was, later))
      {
        EvolvesTransitive(was, now, later, strict);
      }
    } else {
      var later := ReopenFile(was, now, strict);
    }
  }

  // ------------------------------------------------------------------- steps that do not last

  const EMPTY := D.MessageDescriptor(None, [], [], [], [], [], [], None, [], [])

  function Single(f: D.FieldDescriptor): D.MessageDescriptor {
    EMPTY.(field := [f])
  }

  lemma SingleSane(f: D.FieldDescriptor, strict: bool)
    requires f.number.Some? && (strict ==> f.number.value >= 1)
    ensures WellFormed(Single(f), strict)
  {
  }

  /** One field against another of the same number. */
  lemma SingleCompatible(f: D.FieldDescriptor, g: D.FieldDescriptor)
    requires f.number.Some? && g.number == f.number
    ensures Compatible(Single(f), Single(g)) <==> KeepsMeaning(f, g)
    ensures NumbersLastHere(Single(f), Single(g), false)
    ensures KeysLastHere(Single(f), Single(g)) <==> (f.jsonName.Some? ==> g.jsonName.Some?)
  {
    hide KeepsMeaning, Retired;
    var (was, now) := (Single(f), Single(g));
    ByNumberFinds(was.field, 0);
    assert now.field[0].number == Some(Number(was.field[0]));
    assert HasNumber(now.field, Number(was.field[0]));
    if KeepsMeaning(f, g) {
      assert FieldsKept(was, now);
    } else {
      assert Number(now.field[0]) in ByNumber(was.field);
      assert !FieldsKept(was, now);
    }
  }

  /** Reserving only the name of a removed field is accepted, and lets its number come back with another meaning. */
  lemma NameOnlyReservation(f: D.FieldDescriptor)
    requires f.number.Some? && f.number.value >= 1
    ensures var (was, now) := (Single(f), EMPTY.(reservedName := [Text(f.name)]));
            && WellFormed(was, true) && WellFormed(now, true) && Compatible(was, now)
            && KeysLastHere(was, now) && !Lasting(was, now, true)
  {
    var (was, now) := (Single(f), EMPTY.(reservedName := [Text(f.name)]));
    assert !HasNumber(now.field, Number(was.field[0])) && !NumberReserved(now, Number(was.field[0]));
  }

  /** Nothing is removed, and yet: a JSON name may be dropped at one step and changed by way of the next. */
  lemma LostKey(f: D.FieldDescriptor)
    requires f.number.Some? && f.number.value >= 1
    ensures IsUtf8([97])
    ensures var (a, b, c) := (Single(f.(jsonName := Some([]))), Single(f.(jsonName := None)),
                              Single(f.(jsonName := Some([97]))));
            && WellFormed(a, true) && WellFormed(b, true) && WellFormed(c, true)
            && Compatible(a, b) && Compatible(b, c) && !Compatible(a, c)
            && NumbersLastHere(a, b, false) && !Lasting(a, b, true)
  {
    assert IsUtf8([97]);
    var (f0, f1, f2) := (f.(jsonName := Some([])), f.(jsonName := None), f.(jsonName := Some([97])));
    SingleSane(f0, true);
    SingleSane(f1, true);
    SingleSane(f2, true);
    SingleCompatible(f0, f1);
    SingleCompatible(f1, f2);
    SingleCompatible(f0, f2);
  }

  /** Without fields, or with one on the number that is reserved. */
  function Reserving(n: i32, fs: seq<D.FieldDescriptor>): D.MessageDescriptor {
    EMPTY.(reservedRange := [D.ReservedRange(n, n)], field := fs)
  }

  lemma ReservingFacts(n: i32, fs: seq<D.FieldDescriptor>)
    requires n >= 1
    ensures NumberReserved(Reserving(n, fs), n) && RangeKept(D.ReservedRange(n, n), [D.ReservedRange(n, n)])
    ensures WellFormed(Reserving(n, []), true)
  {
    assert ReservedBy(Reserving(n, fs).reservedRange[0], n);
    assert RangeCoversRange([D.ReservedRange(n, n)][0].start, [D.ReservedRange(n, n)][0].end, n, n);
  }

  lemma UsedNumber(f: D.FieldDescriptor, g: D.FieldDescriptor)
    requires f.number.Some? && f.number.value >= 1 && g == f.(name := Some(OtherName(Text(f.name))))
    ensures var (n, now) := (f.number.value, Reserving(f.number.value, []));
            && WellFormed(Reserving(n, [g]), false) && !WellFormed(Reserving(n, [g]), true)
            && Compatible(now, Reserving(n, [g])) && !Compatible(Single(f), Reserving(n, [g]))
  {
    hide RangeKept, NumberReserved, KeepsMeaning;
    var (n, later) := (f.number.value, Reserving(f.number.value, [g]));
    ReservingFacts(n, [g]);
    assert !FieldStrict(later, later.field[0]);
    ByNumberFinds(Single(f).field, 0);
    assert Number(later.field[0]) in ByNumber(Single(f).field);
    assert !KeepsMeaning(f, g) by { OtherMeaning(f, g); }
    assert !FieldsKept(Single(f), later);
  }

  lemma OtherMeaning(f: D.FieldDescriptor, g: D.FieldDescriptor)
    requires Text(g.name) != Text(f.name)
    ensures !KeepsMeaning(f, g)
  {
  }

  lemma RemovedNumber(f: D.FieldDescriptor)
    requires f.number.Some? && f.number.value >= 1
    ensures var now := Reserving(f.number.value, []);
            Compatible(Single(f), now) && Lasting(Single(f), now, true) && !Lasting(Single(f), now, false)
  {
    hide NumberReserved;
    var (was, now) := (Single(f), Reserving(f.number.value, []));
    ReservingFacts(f.number.value, []);
    assert !HasNumber(now.field, Number(was.field[0]));
  }

  /** A reserved number may be used all the same: even a removal reserved by number is gone back on unnoticed. */
  lemma ReservedNumberUsed(f: D.FieldDescriptor)
    requires f.number.Some? && f.number.value >= 1
    ensures var (n, g) := (f.number.value, f.(name := Some(OtherName(Text(f.name)))));
            var (was, now, later) := (Single(f), Reserving(n, []), Reserving(n, [g]));
            && WellFormed(was, true) && WellFormed(now, true) && WellFormed(later, false) && !WellFormed(later, true)
            && Compatible(was, now) && Compatible(now, later) && !Compatible(was, later)
            && Lasting(was, now, true) && !Lasting(was, now, false)
  {
    hide WellFormed, Compatible, Lasting, Reserving;
    SingleSane(f, true);
    ReservingFacts(f.number.value, []);
    RemovedNumber(f);
    UsedNumber(f, f.(name := Some(OtherName(Text(f.name)))));
  }

  /** An absent JSON name in the middle hides a change; a present one never does. */
  lemma JsonNameChains(b: D.FieldDescriptor)
    ensures (forall a, c :: KeepsMeaning(a, b) && KeepsMeaning(b, c) ==> KeepsMeaning(a, c)) <==> b.jsonName.Some?
  {
    assert IsUtf8([97]);
    if b.jsonName.None? {
      var a, c := b.(jsonName := Some([])), b.(jsonName := Some([97]));
      assert KeepsMeaning(a, b) && KeepsMeaning(b, c) && !KeepsMeaning(a, c);
    }
  }
}
