/**
 * The whole report of a comparison (lint/lib.rs), finding by finding: which severity, code and names stand in it
 * is said over the two schemas alone, at every depth.
 */
module LintReport {
  import opened Wrappers
  import opened WireBasics
  import opened Utf8
  import opened LintFindings
  import D = Descriptor

  // --------------------------------------------------------------------------- fields

  /** A field without a number counts as number 0. */
  predicate Numbered(f: D.FieldDescriptor, n: i32) {
    f.number == Some(n) || (f.number == None && n == 0)
  }

  /** No old field has the number. */
  predicate Unused(fs: seq<D.FieldDescriptor>, n: i32) {
    forall j :: 0 <= j < |fs| ==> !Numbered(fs[j], n)
  }

  /** The last old field with the number, the one a new field is compared with. */
  predicate LastNumbered(fs: seq<D.FieldDescriptor>, j: nat, n: i32) {
    j < |fs| && Numbered(fs[j], n) && forall k :: j < k < |fs| ==> !Numbered(fs[k], n)
  }

  predicate Gone(fs: seq<D.FieldDescriptor>, n: i32) {
    forall i :: 0 <= i < |fs| ==> fs[i].number != Some(n)
  }

  predicate ReservesNumber(now: D.MessageDescriptor, n: i32) {
    exists i :: 0 <= i < |now.reservedRange| &&
      var rr := now.reservedRange[i];
      rr.start <= n && (n <= rr.end || (rr.end == 0 && rr.start == n))
  }

  /** What is said about two fields of one number. */
  predicate PairReport(was: D.FieldDescriptor, now: D.FieldDescriptor, at: seq<Str>, f: Finding) {
    if Text(was.name) != Text(now.name) then
      f == Finding(Breaking, "FIELD_NUMBER_REUSED", at + [Text(was.name), Text(now.name)])
    else
      && f.subject == at + [Text(now.name)]
      && match f.code
         case "FIELD_TYPE_CHANGED" => f.severity == Breaking && was.ty != now.ty
         case "FIELD_LABEL_CHANGED" => f.severity == Breaking && was.fieldLabel != now.fieldLabel
         case "FIELD_TYPE_NAME_CHANGED" => f.severity == Breaking && was.typeName != now.typeName
         case "JSON_NAME_CHANGED" =>
           || (f.severity == Breaking && was.jsonName.Some? && now.jsonName.Some? && was.jsonName != now.jsonName)
           || (f.severity == Warning && was.jsonName.Some? && now.jsonName == None)
         case "DEFAULT_VALUE_CHANGED" => f.severity == Warning && was.defaultValue != now.defaultValue
         case _ => false
  }

  predicate AddedReport(was: D.MessageDescriptor, now: D.MessageDescriptor, i: nat, n: i32, at: seq<Str>, f: Finding) {
    && i < |now.field| && Numbered(now.field[i], n) && Unused(was.field, n)
    && f == Finding(Warning, "FIELD_ADDED", at + [Text(now.field[i].name)])
  }

  predicate KeptReport(was: D.MessageDescriptor, now: D.MessageDescriptor, j: nat, i: nat, n: i32, at: seq<Str>,
                       f: Finding) {
    && i < |now.field| && Numbered(now.field[i], n) && LastNumbered(was.field, j, n)
    && PairReport(was.field[j], now.field[i], at, f)
  }

  predicate GoneReport(was: D.MessageDescriptor, now: D.MessageDescriptor, j: nat, n: i32, at: seq<Str>, f: Finding) {
    && j < |was.field| && Numbered(was.field[j], n) && Gone(now.field, n)
    && var name := Text(was.field[j].name);
       f == if ReservesNumber(now, n) || name in now.reservedName then Finding(Safe, "FIELD_RESERVED", at + [name])
            else Finding(Breaking, "FIELD_REMOVED", at + [name])
  }

  ghost predicate FieldReport(was: D.MessageDescriptor, now: D.MessageDescriptor, at: seq<Str>, f: Finding) {
    || (exists i: nat, n: i32 :: AddedReport(was, now, i, n, at, f))
    || (exists j: nat, i: nat, n: i32 :: KeptReport(was, now, j, i, n, at, f))
    || (exists j: nat, n: i32 :: GoneReport(was, now, j, n, at, f))
  }

  // --------------------------------------------------------------------------- ranges

  /** A range of which the end is 0 holds its start alone. */
  predicate Holds(start: i32, end: i32, n: i32) {
    start <= n && if end == 0 then n == start else n <= end
  }

  predicate Contains(start: i32, end: i32, start': i32, end': i32) {
    Holds(start, end, start') && Holds(start, end, if end' == 0 then start' else end')
  }

  /** No new range contains the old one. */
  predicate RangeLost(b: D.ReservedRange, news: seq<D.ReservedRange>) {
    forall i :: 0 <= i < |news| ==> !Contains(news[i].start, news[i].end, b.start, b.end)
  }

  predicate ExtensionLost(b: D.ExtensionRange, news: seq<D.ExtensionRange>) {
    forall i :: 0 <= i < |news| ==> !Contains(news[i].start, news[i].end, b.start, b.end)
  }

  ghost predicate ReservationReport(was: D.MessageDescriptor, now: D.MessageDescriptor, at: seq<Str>, f: Finding) {
    || (exists k :: 0 <= k < |was.reservedRange| && RangeLost(was.reservedRange[k], now.reservedRange)
                    && f == Finding(Breaking, "RESERVED_RANGE_SHRUNK", at))
    || (exists k :: 0 <= k < |was.reservedName| && was.reservedName[k] !in now.reservedName
                    && f == Finding(Breaking, "RESERVED_NAME_REMOVED", at + [was.reservedName[k]]))
    || (exists k :: 0 <= k < |was.extensionRange| && ExtensionLost(was.extensionRange[k], now.extensionRange)
                    && f == Finding(Warning, "EXTENSION_RANGE_REMOVED", at))
  }

  // ----------------------------------------------------------------------------- enums

  predicate ValueAbsent(vs: seq<D.EnumValueDescriptor>, number: Option<i32>) {
    forall i :: 0 <= i < |vs| ==> vs[i].number != number
  }

  /** The first old enum of that name. */
  predicate FirstEnum(es: seq<D.EnumDescriptor>, j: nat, name: Option<Str>) {
    j < |es| && es[j].name == name && forall k :: 0 <= k < j ==> es[k].name != name
  }

  predicate NoEnum(es: seq<D.EnumDescriptor>, name: Option<Str>) {
    forall k :: 0 <= k < |es| ==> es[k].name != name
  }

  ghost predicate ValueReport(was: D.EnumDescriptor, now: D.EnumDescriptor, at: seq<Str>, f: Finding) {
    || (exists k :: 0 <= k < |was.value| && ValueAbsent(now.value, was.value[k].number)
                    && f == Finding(Breaking, "ENUM_VALUE_REMOVED", at + [Text(was.value[k].name)]))
    || (exists k :: 0 <= k < |now.value| && ValueAbsent(was.value, now.value[k].number)
                    && f == Finding(Warning, "ENUM_VALUE_ADDED", at + [Text(now.value[k].name)]))
  }

  ghost predicate EnumReport(olds: seq<D.EnumDescriptor>, news: seq<D.EnumDescriptor>, at: seq<Str>, f: Finding) {
    || (exists i :: 0 <= i < |news| && NoEnum(olds, news[i].name)
                    && f == Finding(Safe, "ENUM_ADDED", at + [Text(news[i].name)]))
    || (exists j: nat, i :: 0 <= i < |news| && FirstEnum(olds, j, news[i].name)
                            && ValueReport(olds[j], news[i], at + [Text(news[i].name)], f))
    || (exists j :: 0 <= j < |olds| && NoEnum(news, olds[j].name)
                    && f == Finding(Breaking, "ENUM_REMOVED", at + [Text(olds[j].name)]))
  }

  // -------------------------------------------------------------------------- services

  predicate FirstMethod(ms: seq<D.MethodDescriptor>, j: nat, name: Option<Str>) {
    j < |ms| && ms[j].name == name && forall k :: 0 <= k < j ==> ms[k].name != name
  }

  predicate NoMethod(ms: seq<D.MethodDescriptor>, name: Option<Str>) {
    forall k :: 0 <= k < |ms| ==> ms[k].name != name
  }

  predicate FirstService(ss: seq<D.ServiceDescriptor>, j: nat, name: Option<Str>) {
    j < |ss| && ss[j].name == name && forall k :: 0 <= k < j ==> ss[k].name != name
  }

  predicate NoService(ss: seq<D.ServiceDescriptor>, name: Option<Str>) {
    forall k :: 0 <= k < |ss| ==> ss[k].name != name
  }

  predicate CallReport(was: D.MethodDescriptor, now: D.MethodDescriptor, at: seq<Str>, f: Finding) {
    && f.severity == Breaking && f.subject == at + [Text(now.name)]
    && match f.code
       case "METHOD_INPUT_CHANGED" => was.inputType != now.inputType
       case "METHOD_OUTPUT_CHANGED" => was.outputType != now.outputType
       case "METHOD_STREAMING_CHANGED" =>
         was.clientStreaming != now.clientStreaming || was.serverStreaming != now.serverStreaming
       case _ => false
  }

  ghost predicate MethodReport(olds: seq<D.MethodDescriptor>, news: seq<D.MethodDescriptor>, at: seq<Str>, f: Finding) {
    || (exists i :: 0 <= i < |news| && NoMethod(olds, news[i].name)
                    && f == Finding(Warning, "METHOD_ADDED", at + [Text(news[i].name)]))
    || (exists j: nat, i :: 0 <= i < |news| && FirstMethod(olds, j, news[i].name) && CallReport(olds[j], news[i], at, f))
    || (exists j :: 0 <= j < |olds| && NoMethod(news, olds[j].name)
                    && f == Finding(Breaking, "METHOD_REMOVED", at + [Text(olds[j].name)]))
  }

  ghost predicate ServiceReport(olds: seq<D.ServiceDescriptor>, news: seq<D.ServiceDescriptor>, f: Finding) {
    || (exists i :: 0 <= i < |news| && NoService(olds, news[i].name)
                    && f == Finding(Safe, "SERVICE_ADDED", [Text(news[i].name)]))
    || (exists j: nat, i :: 0 <= i < |news| && FirstService(olds, j, news[i].name)
                            && MethodReport(olds[j].methods, news[i].methods, [Text(news[i].name)], f))
    || (exists j :: 0 <= j < |olds| && NoService(news, olds[j].name)
                    && f == Finding(Breaking, "SERVICE_REMOVED", [Text(olds[j].name)]))
  }

  // -------------------------------------------------------------------------- messages

  predicate FirstMessage(ms: seq<D.MessageDescriptor>, j: nat, name: Option<Str>) {
    j < |ms| && ms[j].name == name && forall k :: 0 <= k < j ==> ms[k].name != name
  }

  predicate NoMessage(ms: seq<D.MessageDescriptor>, name: Option<Str>) {
    forall k :: 0 <= k < |ms| ==> ms[k].name != name
  }

  ghost predicate MessageReport(olds: seq<D.MessageDescriptor>, news: seq<D.MessageDescriptor>, at: seq<Str>, f: Finding) {
    || (exists i :: 0 <= i < |news| && NoMessage(olds, news[i].name)
                    && f == Finding(Safe, "MESSAGE_ADDED", at + [Text(news[i].name)]))
    || (exists j :: 0 <= j < |olds| && NoMessage(news, olds[j].name)
                    && f == Finding(Breaking, "MESSAGE_REMOVED", at + [Text(olds[j].name)]))
  }

  /** Two messages that are compared, and the names that lead there. */
  datatype Pair = Pair(was: D.MessageDescriptor, now: D.MessageDescriptor, at: seq<Str>)

  /** A chain of nested messages, at each level a new one and the first old one of its name, leads to the pair. */
  ghost predicate Meet(olds: seq<D.MessageDescriptor>, news: seq<D.MessageDescriptor>, at: seq<Str>,
                       steps: seq<(nat, nat)>, p: Pair)
    decreases |steps|
  {
    && |steps| > 0
    && var (j, i) := steps[0];
       && i < |news| && FirstMessage(olds, j, news[i].name)
       && var at' := at + [Text(news[i].name)];
          if |steps| == 1 then p == Pair(olds[j], news[i], at')
          else Meet(olds[j].nestedType, news[i].nestedType, at', steps[1..], p)
  }

  /** What is said about a pair: its fields, its reservations, and the messages and enums directly inside. */
  ghost predicate PairFinding(p: Pair, f: Finding) {
    || FieldReport(p.was, p.now, p.at, f)
    || ReservationReport(p.was, p.now, p.at, f)
    || MessageReport(p.was.nestedType, p.now.nestedType, p.at, f)
    || EnumReport(p.was.enumType, p.now.enumType, p.at, f)
  }

  ghost predicate Inside(olds: seq<D.MessageDescriptor>, news: seq<D.MessageDescriptor>, at: seq<Str>, f: Finding) {
    exists steps: seq<(nat, nat)>, p: Pair :: Meet(olds, news, at, steps, p) && PairFinding(p, f)
  }

  /** Everything a comparison of two files has to say. */
  ghost predicate FileReport(was: D.FileDescriptor, now: D.FileDescriptor, f: Finding) {
    || (Text(was.package) != Text(now.package)
        && f == Finding(Breaking, "PACKAGE_CHANGED", [Text(was.package), Text(now.package)]))
    || MessageReport(was.messageType, now.messageType, [], f)
    || Inside(was.messageType, now.messageType, [], f)
    || EnumReport(was.enumType, now.enumType, [], f)
    || ServiceReport(was.service, now.service, f)
  }

  // ------------------------------------------------------------------------------ proofs

  lemma {:induction false} InConcat(parts: seq<seq<Finding>>, f: Finding)
    ensures f in Concat(parts) <==> exists i :: 0 <= i < |parts| && f in parts[i]
  {
    if |parts| > 0 {
      var front := parts[..|parts| - 1];
      InConcat(front, f);
      assert forall i :: 0 <= i < |front| ==> front[i] == parts[i];
      if i :| 0 <= i < |parts| && f in parts[i] {
        if i < |front| { assert f in front[i]; }
      }
    }
  }

  /** The index by number holds the last field of each. */
  lemma {:induction false} ByNumberIsLast(fs: seq<D.FieldDescriptor>, n: i32) returns (j: nat)
    ensures n !in ByNumber(fs) <==> Unused(fs, n)
    ensures n in ByNumber(fs) ==> LastNumbered(fs, j, n) && ByNumber(fs)[n] == fs[j]
  {
    hide Unused, LastNumbered;
    j := 0;
    if |fs| == 0 {
      UnusedEmpty(n);
      assert fs == [];
    } else {
      var last := |fs| - 1;
      var k := ByNumberIsLast(fs[..last], n);
      LastSnoc(fs, n);
      if Number(fs[last]) == n {
        j := last;
      } else if n in ByNumber(fs) {
        j := k;
        assert k < last by { LastPlace(fs[..last], k, n); }
      }
    }
  }

  lemma UnusedEmpty(n: i32)
    ensures Unused([], n)
  {
  }

  lemma LastSnoc(fs: seq<D.FieldDescriptor>, n: i32)
    requires |fs| > 0
    ensures var last := |fs| - 1;
            && (Unused(fs, n) <==> Unused(fs[..last], n) && Number(fs[last]) != n)
            && (Number(fs[last]) == n ==> LastNumbered(fs, last, n))
            && (Number(fs[last]) != n ==> forall j: nat :: LastNumbered(fs[..last], j, n) ==> LastNumbered(fs, j, n))
  {
    hide Numbered;
    var (front, last) := (fs[..|fs| - 1], |fs| - 1);
    assert Numbered(fs[last], n) <==> Number(fs[last]) == n by { NumberedIs(fs[last], n); }
    assert forall i :: 0 <= i < last ==> front[i] == fs[i];
    if Unused(fs, n) {
      forall i | 0 <= i < last
        ensures !Numbered(front[i], n)
      {
        assert front[i] == fs[i];
      }
    }
    forall j: nat | LastNumbered(front, j, n) && Number(fs[last]) != n
      ensures LastNumbered(fs, j, n)
    {
      assert fs[j] == front[j];
      forall k | j < k < |fs|
        ensures !Numbered(fs[k], n)
      {
        if k < last { assert fs[k] == front[k]; }
      }
    }
  }

  lemma NumberedIs(f: D.FieldDescriptor, n: i32)
    ensures Numbered(f, n) <==> Number(f) == n
  {
  }

  lemma LastPlace(fs: seq<D.FieldDescriptor>, j: nat, n: i32)
    requires LastNumbered(fs, j, n)
    ensures j < |fs|
  {
  }

  lemma OneLast(fs: seq<D.FieldDescriptor>, j: nat, k: nat, n: i32)
    requires LastNumbered(fs, j, n) && LastNumbered(fs, k, n)
    ensures j == k
  {
  }

  lemma InWhen(c: bool, severity: Severity, code: string, at: seq<Str>, f: Finding)
    ensures f in When(c, severity, code, at) <==> c && f == Finding(severity, code, at)
  {
  }

  lemma InJson(was: Option<Str>, now: Option<Str>, at: seq<Str>, f: Finding)
    ensures f in JsonFindings(was, now, at) <==>
            && f.code == "JSON_NAME_CHANGED" && f.subject == at
            && (|| (f.severity == Breaking && was.Some? && now.Some? && was != now)
                || (f.severity == Warning && was.Some? && now == None))
  {
  }

  lemma InFieldCompat(at: seq<Str>, was: D.FieldDescriptor, now: D.FieldDescriptor, f: Finding)
    requires Text(was.name) == Text(now.name)
    ensures f in FieldCompat(at, was, now) <==> PairReport(was, now, at, f)
  {
    hide IsUtf8, Text, When, JsonFindings;
    var to := at + [Text(now.name)];
    InWhen(was.ty != now.ty, Breaking, "FIELD_TYPE_CHANGED", to, f);
    InWhen(was.fieldLabel != now.fieldLabel, Breaking, "FIELD_LABEL_CHANGED", to, f);
    InWhen(was.typeName != now.typeName, Breaking, "FIELD_TYPE_NAME_CHANGED", to, f);
    InJson(was.jsonName, now.jsonName, to, f);
    InWhen(was.defaultValue != now.defaultValue, Warning, "DEFAULT_VALUE_CHANGED", to, f);
  }

  // ----------------------------------------------------------------------- level by level

  /** One new field: reported as added, or compared with the last old field of its number. */
  lemma InNewField(was: D.MessageDescriptor, g: D.FieldDescriptor, at: seq<Str>, f: Finding)
    ensures var n := Number(g);
            f in NewField(ByNumber(was.field), g, at) <==>
            || (Unused(was.field, n) && f == Finding(Warning, "FIELD_ADDED", at + [Text(g.name)]))
            || (exists j: nat :: LastNumbered(was.field, j, n) && PairReport(was.field[j], g, at, f))
  {
    hide FieldCompat, PairReport, Unused, ByNumber, Numbered;
    var n := Number(g);
    var j := ByNumberIsLast(was.field, n);
    if n in ByNumber(was.field) {
      var o := was.field[j];
      if Text(o.name) == Text(g.name) { InFieldCompat(at, o, g, f); } else { ReusedReport(o, g, at, f); }
      if k: nat :| LastNumbered(was.field, k, n) && PairReport(was.field[k], g, at, f) { OneLast(was.field, j, k, n); }
    } else if k: nat :| LastNumbered(was.field, k, n) {
      LastIsUsed(was.field, k, n);
    }
  }

  lemma LastIsUsed(fs: seq<D.FieldDescriptor>, j: nat, n: i32)
    requires LastNumbered(fs, j, n)
    ensures !Unused(fs, n)
  {
  }

  lemma ReusedReport(was: D.FieldDescriptor, now: D.FieldDescriptor, at: seq<Str>, f: Finding)
    requires Text(was.name) != Text(now.name)
    ensures PairReport(was, now, at, f) <==>
            f == Finding(Breaking, "FIELD_NUMBER_REUSED", at + [Text(was.name), Text(now.name)])
  {
  }

  lemma InOldField(was: D.MessageDescriptor, now: D.MessageDescriptor, j: nat, at: seq<Str>, f: Finding)
    requires j < |was.field|
    ensures f in OldField(now, was.field[j], at) <==> GoneReport(was, now, j, Number(was.field[j]), at, f)
  {
    hide IsUtf8, Text;
    var n := Number(was.field[j]);
    assert HasNumber(now.field, n) <==> !Gone(now.field, n);
    assert NumberReserved(now, n) <==> ReservesNumber(now, n) by { ReservedAlike(now, n); }
    assert Numbered(was.field[j], n);
  }

  lemma ReservedAlike(now: D.MessageDescriptor, n: i32)
    ensures NumberReserved(now, n) <==> ReservesNumber(now, n)
  {
    if ReservesNumber(now, n) {
      var i :| 0 <= i < |now.reservedRange| &&
        var rr := now.reservedRange[i];
        rr.start <= n && (n <= rr.end || (rr.end == 0 && rr.start == n));
      assert ReservedBy(now.reservedRange[i], n);
    }
  }

  lemma InNewFields(was: D.MessageDescriptor, now: D.MessageDescriptor, at: seq<Str>, f: Finding)
    ensures f in Concat(NewFields(ByNumber(was.field), now.field, at)) <==>
            || (exists i: nat, n: i32 :: AddedReport(was, now, i, n, at, f))
            || (exists j: nat, i: nat, n: i32 :: KeptReport(was, now, j, i, n, at, f))
  {
    hide NewField, PairReport, Unused, ByNumber, Concat, Numbered, IsUtf8, Text;
    var parts := NewFields(ByNumber(was.field), now.field, at);
    InConcat(parts, f);
    if f in Concat(parts) {
      var i :| 0 <= i < |parts| && f in parts[i];
      var (g, n) := (now.field[i], Number(now.field[i]));
      NumberedIs(g, n);
      InNewField(was, g, at, f);
      if j: nat :| LastNumbered(was.field, j, n) && PairReport(was.field[j], g, at, f) {
        assert KeptReport(was, now, j, i, n, at, f);
      } else {
        assert AddedReport(was, now, i, n, at, f);
      }
    }
    if i: nat, n: i32 :| AddedReport(was, now, i, n, at, f) {
      NumberedIs(now.field[i], n);
      InNewField(was, now.field[i], at, f);
      assert f in parts[i];
    }
    if j: nat, i: nat, n: i32 :| KeptReport(was, now, j, i, n, at, f) {
      NumberedIs(now.field[i], n);
      InNewField(was, now.field[i], at, f);
      assert f in parts[i];
    }
  }

  lemma InOldFields(was: D.MessageDescriptor, now: D.MessageDescriptor, at: seq<Str>, f: Finding)
    ensures f in Concat(OldFields(now, was.field, at)) <==> exists j: nat, n: i32 :: GoneReport(was, now, j, n, at, f)
  {
    hide OldField, Concat, Numbered, Gone, ReservesNumber, IsUtf8, Text;
    var parts := OldFields(now, was.field, at);
    InConcat(parts, f);
    if f in Concat(parts) {
      var j :| 0 <= j < |parts| && f in parts[j];
      InOldField(was, now, j, at, f);
    }
    if j: nat, n: i32 :| GoneReport(was, now, j, n, at, f) {
      NumberedIs(was.field[j], n);
      InOldField(was, now, j, at, f);
      assert f in parts[j];
    }
  }

  lemma InMessageFields(was: D.MessageDescriptor, now: D.MessageDescriptor, at: seq<Str>, f: Finding)
    ensures f in MessageFields(was, now, at) <==> FieldReport(was, now, at, f)
  {
    hide NewFields, OldFields, Concat, AddedReport, KeptReport, GoneReport, ByNumber;
    InNewFields(was, now, at, f);
    InOldFields(was, now, at, f);
  }

  lemma ContainsIs(a: i32, b: i32, c: i32, d: i32)
    ensures RangeCoversRange(a, b, c, d) <==> Contains(a, b, c, d)
  {
  }

  lemma RangeKeptIs(b: D.ReservedRange, news: seq<D.ReservedRange>)
    ensures !RangeKept(b, news) <==> RangeLost(b, news)
  {
    hide RangeCoversRange, Contains;
    forall i | 0 <= i < |news|
      ensures RangeCoversRange(news[i].start, news[i].end, b.start, b.end)
              <==> Contains(news[i].start, news[i].end, b.start, b.end)
    {
      ContainsIs(news[i].start, news[i].end, b.start, b.end);
    }
  }

  lemma ExtensionKeptIs(b: D.ExtensionRange, news: seq<D.ExtensionRange>)
    ensures !ExtensionKept(b, news) <==> ExtensionLost(b, news)
  {
    hide RangeCoversRange, Contains;
    forall i | 0 <= i < |news|
      ensures RangeCoversRange(news[i].start, news[i].end, b.start, b.end)
              <==> Contains(news[i].start, news[i].end, b.start, b.end)
    {
      ContainsIs(news[i].start, news[i].end, b.start, b.end);
    }
  }

  lemma InRanges(was: D.MessageDescriptor, now: D.MessageDescriptor, at: seq<Str>, f: Finding)
    ensures f in Concat(ReservedRanges(was, now, at)) <==>
            exists k :: 0 <= k < |was.reservedRange| && RangeLost(was.reservedRange[k], now.reservedRange)
                        && f == Finding(Breaking, "RESERVED_RANGE_SHRUNK", at)
  {
    hide Concat, When, RangeKept, RangeLost;
    var parts := ReservedRanges(was, now, at);
    InConcat(parts, f);
    forall k | 0 <= k < |was.reservedRange|
      ensures f in parts[k] <==>
              RangeLost(was.reservedRange[k], now.reservedRange) && f == Finding(Breaking, "RESERVED_RANGE_SHRUNK", at)
    {
      InWhen(!RangeKept(was.reservedRange[k], now.reservedRange), Breaking, "RESERVED_RANGE_SHRUNK", at, f);
      RangeKeptIs(was.reservedRange[k], now.reservedRange);
    }
    if k :| 0 <= k < |was.reservedRange| && RangeLost(was.reservedRange[k], now.reservedRange)
            && f == Finding(Breaking, "RESERVED_RANGE_SHRUNK", at) {
      assert f in parts[k];
    }
  }

  lemma InNames(was: D.MessageDescriptor, now: D.MessageDescriptor, at: seq<Str>, f: Finding)
    ensures f in Concat(ReservedNames(was, now, at)) <==>
            exists k :: 0 <= k < |was.reservedName| && was.reservedName[k] !in now.reservedName
                        && f == Finding(Breaking, "RESERVED_NAME_REMOVED", at + [was.reservedName[k]])
  {
    hide Concat, IsUtf8;
    var parts := ReservedNames(was, now, at);
    InConcat(parts, f);
    if k :| 0 <= k < |was.reservedName| && was.reservedName[k] !in now.reservedName
            && f == Finding(Breaking, "RESERVED_NAME_REMOVED", at + [was.reservedName[k]]) {
      assert f in parts[k];
    }
  }

  lemma InExtensions(was: D.MessageDescriptor, now: D.MessageDescriptor, at: seq<Str>, f: Finding)
    ensures f in Concat(ExtensionRanges(was, now, at)) <==>
            exists k :: 0 <= k < |was.extensionRange| && ExtensionLost(was.extensionRange[k], now.extensionRange)
                        && f == Finding(Warning, "EXTENSION_RANGE_REMOVED", at)
  {
    hide Concat, When, ExtensionKept, ExtensionLost;
    var parts := ExtensionRanges(was, now, at);
    InConcat(parts, f);
    forall k | 0 <= k < |was.extensionRange|
      ensures f in parts[k] <==>
              ExtensionLost(was.extensionRange[k], now.extensionRange)
              && f == Finding(Warning, "EXTENSION_RANGE_REMOVED", at)
    {
      InWhen(!ExtensionKept(was.extensionRange[k], now.extensionRange), Warning, "EXTENSION_RANGE_REMOVED", at, f);
      ExtensionKeptIs(was.extensionRange[k], now.extensionRange);
    }
    if k :| 0 <= k < |was.extensionRange| && ExtensionLost(was.extensionRange[k], now.extensionRange)
            && f == Finding(Warning, "EXTENSION_RANGE_REMOVED", at) {
      assert f in parts[k];
    }
  }

  lemma InReservations(was: D.MessageDescriptor, now: D.MessageDescriptor, at: seq<Str>, f: Finding)
    ensures f in Reservations(was, now, at) <==> ReservationReport(was, now, at, f)
  {
    hide Concat, ReservedRanges, ReservedNames, ExtensionRanges, RangeLost, ExtensionLost;
    InRanges(was, now, at, f);
    InNames(was, now, at, f);
    InExtensions(was, now, at, f);
  }

  // ---------------------------------------------------------------------------- finding by name

  lemma FirstIs(names: seq<Option<Str>>, name: Option<Str>, j: nat)
    ensures Find(names, name) == Some(j) <==>
            j < |names| && names[j] == name && forall k :: 0 <= k < j ==> names[k] != name
    ensures Find(names, name) == None <==> forall k :: 0 <= k < |names| ==> names[k] != name
  {
    hide Find, IsUtf8;
    var found := Find(names, name);
    if found.Some? {
      forall k | 0 <= k < found.value
        ensures names[k] != name
      {
        assert names[..found.value][k] == names[k];
      }
    }
  }

  lemma AbsentIs(names: seq<Option<Str>>, name: Option<Str>)
    ensures name !in names <==> forall k :: 0 <= k < |names| ==> names[k] != name
  {
  }

  // ------------------------------------------------------------------------ enums, by level

  lemma InEnumPair(was: D.EnumDescriptor, now: D.EnumDescriptor, at: seq<Str>, f: Finding)
    ensures f in Concat(ValuesRemoved(was, now, at)) + Concat(ValuesAdded(was, now, at)) <==> ValueReport(was, now, at, f)
  {
    hide Concat, When, IsUtf8, Text, HasValue, ValueAbsent;
    var (gone, added) := (ValuesRemoved(was, now, at), ValuesAdded(was, now, at));
    InConcat(gone, f);
    InConcat(added, f);
    forall k | 0 <= k < |was.value|
      ensures f in gone[k] <==> ValueAbsent(now.value, was.value[k].number)
                                && f == Finding(Breaking, "ENUM_VALUE_REMOVED", at + [Text(was.value[k].name)])
    {
      AbsentValue(now, was.value[k].number);
      InWhen(!HasValue(now, was.value[k].number), Breaking, "ENUM_VALUE_REMOVED", at + [Text(was.value[k].name)], f);
    }
    forall k | 0 <= k < |now.value|
      ensures f in added[k] <==> ValueAbsent(was.value, now.value[k].number)
                                 && f == Finding(Warning, "ENUM_VALUE_ADDED", at + [Text(now.value[k].name)])
    {
      AbsentValue(was, now.value[k].number);
      InWhen(!HasValue(was, now.value[k].number), Warning, "ENUM_VALUE_ADDED", at + [Text(now.value[k].name)], f);
    }
    if k :| 0 <= k < |was.value| && f in gone[k] { assert ValueAbsent(now.value, was.value[k].number); }
    if k :| 0 <= k < |now.value| && f in added[k] { assert ValueAbsent(was.value, now.value[k].number); }
    if k :| 0 <= k < |was.value| && ValueAbsent(now.value, was.value[k].number)
            && f == Finding(Breaking, "ENUM_VALUE_REMOVED", at + [Text(was.value[k].name)]) {
      assert f in gone[k];
    }
    if k :| 0 <= k < |now.value| && ValueAbsent(was.value, now.value[k].number)
            && f == Finding(Warning, "ENUM_VALUE_ADDED", at + [Text(now.value[k].name)]) {
      assert f in added[k];
    }
  }

  lemma AbsentValue(e: D.EnumDescriptor, number: Option<i32>)
    ensures ValueAbsent(e.value, number) <==> !HasValue(e, number)
  {
  }

  ghost predicate NewEnumReport(olds: seq<D.EnumDescriptor>, e: D.EnumDescriptor, at: seq<Str>, f: Finding) {
    || (NoEnum(olds, e.name) && f == Finding(Safe, "ENUM_ADDED", at + [Text(e.name)]))
    || (exists j: nat :: FirstEnum(olds, j, e.name) && ValueReport(olds[j], e, at + [Text(e.name)], f))
  }

  lemma InNewEnum(olds: seq<D.EnumDescriptor>, e: D.EnumDescriptor, at: seq<Str>, f: Finding)
    ensures f in NewEnum(olds, e, at) <==> NewEnumReport(olds, e, at, f)
  {
    hide Concat, ValueReport, IsUtf8, Text, Find;
    var found := Find(EnumNames(olds), e.name);
    FirstIs(EnumNames(olds), e.name, if found.Some? then found.value else 0);
    if found.Some? {
      assert FirstEnum(olds, found.value, e.name);
      InEnumPair(olds[found.value], e, at + [Text(e.name)], f);
    }
  }

  lemma InEnums(olds: seq<D.EnumDescriptor>, news: seq<D.EnumDescriptor>, at: seq<Str>, f: Finding)
    ensures f in Enums(olds, news, at) <==> EnumReport(olds, news, at, f)
  {
    hide Concat, NewEnum, When, ValueReport, IsUtf8, Text, NoEnum, FirstEnum, EnumNames;
    var (added, gone) := (NewEnums(olds, news, at), OldEnums(olds, news, at));
    InConcat(added, f);
    InConcat(gone, f);
    forall i | 0 <= i < |news|
      ensures f in added[i] <==> NewEnumReport(olds, news[i], at, f)
    {
      InNewEnum(olds, news[i], at, f);
    }
    forall j | 0 <= j < |olds|
      ensures f in gone[j] <==>
              NoEnum(news, olds[j].name) && f == Finding(Breaking, "ENUM_REMOVED", at + [Text(olds[j].name)])
    {
      InWhen(olds[j].name !in EnumNames(news), Breaking, "ENUM_REMOVED", at + [Text(olds[j].name)], f);
      NoEnumIs(news, olds[j].name);
    }
    EnumCases(olds, news, at, f, added, gone);
  }

  lemma NoEnumIs(es: seq<D.EnumDescriptor>, name: Option<Str>)
    ensures name !in EnumNames(es) <==> NoEnum(es, name)
  {
    AbsentIs(EnumNames(es), name);
  }

  lemma EnumCases(olds: seq<D.EnumDescriptor>, news: seq<D.EnumDescriptor>, at: seq<Str>, f: Finding,
                  added: seq<seq<Finding>>, gone: seq<seq<Finding>>)
    requires |added| == |news| && |gone| == |olds|
    requires forall i :: 0 <= i < |news| ==> (f in added[i] <==> NewEnumReport(olds, news[i], at, f))
    requires forall j :: 0 <= j < |olds| ==>
               (f in gone[j] <==>
                NoEnum(news, olds[j].name) && f == Finding(Breaking, "ENUM_REMOVED", at + [Text(olds[j].name)]))
    ensures (exists i :: 0 <= i < |added| && f in added[i]) || (exists j :: 0 <= j < |gone| && f in gone[j])
            <==> EnumReport(olds, news, at, f)
  {
    hide ValueReport, IsUtf8, Text, NoEnum;
    if i :| 0 <= i < |added| && f in added[i] { assert NewEnumReport(olds, news[i], at, f); }
    if j :| 0 <= j < |gone| && f in gone[j] { assert NoEnum(news, olds[j].name); }
    if i :| 0 <= i < |news| && NoEnum(olds, news[i].name)
            && f == Finding(Safe, "ENUM_ADDED", at + [Text(news[i].name)]) {
      assert f in added[i];
    }
    if j: nat, i :| 0 <= i < |news| && FirstEnum(olds, j, news[i].name)
                    && ValueReport(olds[j], news[i], at + [Text(news[i].name)], f) {
      assert f in added[i];
    }
    if j :| 0 <= j < |olds| && NoEnum(news, olds[j].name)
            && f == Finding(Breaking, "ENUM_REMOVED", at + [Text(olds[j].name)]) {
      assert f in gone[j];
    }
  }

  // --------------------------------------------------------------------- services, by level

  lemma InMethodCompat(at: seq<Str>, was: D.MethodDescriptor, now: D.MethodDescriptor, f: Finding)
    ensures f in MethodCompat(at, was, now) <==> CallReport(was, now, at, f)
  {
    hide IsUtf8, Text, When;
    var to := at + [Text(now.name)];
    InWhen(was.inputType != now.inputType, Breaking, "METHOD_INPUT_CHANGED", to, f);
    InWhen(was.outputType != now.outputType, Breaking, "METHOD_OUTPUT_CHANGED", to, f);
    InWhen(was.clientStreaming != now.clientStreaming || was.serverStreaming != now.serverStreaming, Breaking,
           "METHOD_STREAMING_CHANGED", to, f);
  }

  ghost predicate NewMethodReport(olds: seq<D.MethodDescriptor>, m: D.MethodDescriptor, at: seq<Str>, f: Finding) {
    || (NoMethod(olds, m.name) && f == Finding(Warning, "METHOD_ADDED", at + [Text(m.name)]))
    || (exists j: nat :: FirstMethod(olds, j, m.name) && CallReport(olds[j], m, at, f))
  }

  lemma InNewMethod(olds: seq<D.MethodDescriptor>, m: D.MethodDescriptor, at: seq<Str>, f: Finding)
    ensures f in NewMethod(olds, m, at) <==> NewMethodReport(olds, m, at, f)
  {
    hide MethodCompat, CallReport, IsUtf8, Text, Find;
    var found := Find(MethodNames(olds), m.name);
    FirstIs(MethodNames(olds), m.name, if found.Some? then found.value else 0);
    if found.Some? {
      assert FirstMethod(olds, found.value, m.name);
      InMethodCompat(at, olds[found.value], m, f);
    }
  }

  lemma NoMethodIs(ms: seq<D.MethodDescriptor>, name: Option<Str>)
    ensures name !in MethodNames(ms) <==> NoMethod(ms, name)
  {
    AbsentIs(MethodNames(ms), name);
  }

  lemma InMethods(olds: seq<D.MethodDescriptor>, news: seq<D.MethodDescriptor>, at: seq<Str>, f: Finding)
    ensures f in Methods(olds, news, at) <==> MethodReport(olds, news, at, f)
  {
    hide Concat, NewMethod, When, CallReport, IsUtf8, Text, NoMethod, FirstMethod, MethodNames;
    var (added, gone) := (NewMethods(olds, news, at), OldMethods(olds, news, at));
    InConcat(added, f);
    InConcat(gone, f);
    forall i | 0 <= i < |news|
      ensures f in added[i] <==> NewMethodReport(olds, news[i], at, f)
    {
      InNewMethod(olds, news[i], at, f);
    }
    forall j | 0 <= j < |olds|
      ensures f in gone[j] <==>
              NoMethod(news, olds[j].name) && f == Finding(Breaking, "METHOD_REMOVED", at + [Text(olds[j].name)])
    {
      InWhen(olds[j].name !in MethodNames(news), Breaking, "METHOD_REMOVED", at + [Text(olds[j].name)], f);
      NoMethodIs(news, olds[j].name);
    }
    MethodCases(olds, news, at, f, added, gone);
  }

  lemma MethodCases(olds: seq<D.MethodDescriptor>, news: seq<D.MethodDescriptor>, at: seq<Str>, f: Finding,
                    added: seq<seq<Finding>>, gone: seq<seq<Finding>>)
    requires |added| == |news| && |gone| == |olds|
    requires forall i :: 0 <= i < |news| ==> (f in added[i] <==> NewMethodReport(olds, news[i], at, f))
    requires forall j :: 0 <= j < |olds| ==>
               (f in gone[j] <==>
                NoMethod(news, olds[j].name) && f == Finding(Breaking, "METHOD_REMOVED", at + [Text(olds[j].name)]))
    ensures (exists i :: 0 <= i < |added| && f in added[i]) || (exists j :: 0 <= j < |gone| && f in gone[j])
            <==> MethodReport(olds, news, at, f)
  {
    hide CallReport, IsUtf8, Text, NoMethod;
    if i :| 0 <= i < |added| && f in added[i] { assert NewMethodReport(olds, news[i], at, f); }
    if j :| 0 <= j < |gone| && f in gone[j] { assert NoMethod(news, olds[j].name); }
    if i :| 0 <= i < |news| && NoMethod(olds, news[i].name)
            && f == Finding(Warning, "METHOD_ADDED", at + [Text(news[i].name)]) {
      assert f in added[i];
    }
    if j: nat, i :| 0 <= i < |news| && FirstMethod(olds, j, news[i].name) && CallReport(olds[j], news[i], at, f) {
      assert f in added[i];
    }
    if j :| 0 <= j < |olds| && NoMethod(news, olds[j].name)
            && f == Finding(Breaking, "METHOD_REMOVED", at + [Text(olds[j].name)]) {
      assert f in gone[j];
    }
  }

  ghost predicate NewServiceReport(olds: seq<D.ServiceDescriptor>, s: D.ServiceDescriptor, f: Finding) {
    || (NoService(olds, s.name) && f == Finding(Safe, "SERVICE_ADDED", [Text(s.name)]))
    || (exists j: nat :: FirstService(olds, j, s.name) && MethodReport(olds[j].methods, s.methods, [Text(s.name)], f))
  }

  lemma InNewService(olds: seq<D.ServiceDescriptor>, s: D.ServiceDescriptor, f: Finding)
    ensures f in NewService(olds, s) <==> NewServiceReport(olds, s, f)
  {
    hide Methods, MethodReport, IsUtf8, Text, Find;
    var found := Find(ServiceNames(olds), s.name);
    FirstIs(ServiceNames(olds), s.name, if found.Some? then found.value else 0);
    if found.Some? {
      assert FirstService(olds, found.value, s.name);
      InMethods(olds[found.value].methods, s.methods, [Text(s.name)], f);
    }
  }

  lemma NoServiceIs(ss: seq<D.ServiceDescriptor>, name: Option<Str>)
    ensures name !in ServiceNames(ss) <==> NoService(ss, name)
  {
    AbsentIs(ServiceNames(ss), name);
  }

  lemma InServices(olds: seq<D.ServiceDescriptor>, news: seq<D.ServiceDescriptor>, f: Finding)
    ensures f in Services(olds, news) <==> ServiceReport(olds, news, f)
  {
    hide Concat, NewService, When, MethodReport, IsUtf8, Text, NoService, FirstService, ServiceNames;
    var (added, gone) := (NewServices(olds, news), OldServices(olds, news));
    InConcat(added, f);
    InConcat(gone, f);
    forall i | 0 <= i < |news|
      ensures f in added[i] <==> NewServiceReport(olds, news[i], f)
    {
      InNewService(olds, news[i], f);
    }
    forall j | 0 <= j < |olds|
      ensures f in gone[j] <==>
              NoService(news, olds[j].name) && f == Finding(Breaking, "SERVICE_REMOVED", [Text(olds[j].name)])
    {
      InWhen(olds[j].name !in ServiceNames(news), Breaking, "SERVICE_REMOVED", [Text(olds[j].name)], f);
      NoServiceIs(news, olds[j].name);
    }
    ServiceCases(olds, news, f, added, gone);
  }

  lemma ServiceCases(olds: seq<D.ServiceDescriptor>, news: seq<D.ServiceDescriptor>, f: Finding,
                     added: seq<seq<Finding>>, gone: seq<seq<Finding>>)
    requires |added| == |news| && |gone| == |olds|
    requires forall i :: 0 <= i < |news| ==> (f in added[i] <==> NewServiceReport(olds, news[i], f))
    requires forall j :: 0 <= j < |olds| ==>
               (f in gone[j] <==>
                NoService(news, olds[j].name) && f == Finding(Breaking, "SERVICE_REMOVED", [Text(olds[j].name)]))
    ensures (exists i :: 0 <= i < |added| && f in added[i]) || (exists j :: 0 <= j < |gone| && f in gone[j])
            <==> ServiceReport(olds, news, f)
  {
    hide MethodReport, IsUtf8, Text, NoService;
    if i :| 0 <= i < |added| && f in added[i] { assert NewServiceReport(olds, news[i], f); }
    if j :| 0 <= j < |gone| && f in gone[j] { assert NoService(news, olds[j].name); }
    if i :| 0 <= i < |news| && NoService(olds, news[i].name) && f == Finding(Safe, "SERVICE_ADDED", [Text(news[i].name)]) {
      assert f in added[i];
    }
    if j: nat, i :| 0 <= i < |news| && FirstService(olds, j, news[i].name)
                    && MethodReport(olds[j].methods, news[i].methods, [Text(news[i].name)], f) {
      assert f in added[i];
    }
    if j :| 0 <= j < |olds| && NoService(news, olds[j].name)
            && f == Finding(Breaking, "SERVICE_REMOVED", [Text(olds[j].name)]) {
      assert f in gone[j];
    }
  }

  // --------------------------------------------------------------------- messages, by depth

  lemma NoMessageIs(ms: seq<D.MessageDescriptor>, name: Option<Str>)
    ensures name !in MessageNames(ms) <==> NoMessage(ms, name)
  {
    AbsentIs(MessageNames(ms), name);
  }

  /** What is said about a pair and everything nested in it. */
  ghost predicate Whole(p: Pair, f: Finding) {
    PairFinding(p, f) || Inside(p.was.nestedType, p.now.nestedType, p.at, f)
  }

  ghost predicate NewMessageReport(olds: seq<D.MessageDescriptor>, m: D.MessageDescriptor, at: seq<Str>, f: Finding) {
    || (NoMessage(olds, m.name) && f == Finding(Safe, "MESSAGE_ADDED", at + [Text(m.name)]))
    || (exists j: nat :: FirstMessage(olds, j, m.name) && Whole(Pair(olds[j], m, at + [Text(m.name)]), f))
  }

  /** The chains of at least one step: the first step, and then what is inside the pair it leads to. */
  lemma InsideSplit(olds: seq<D.MessageDescriptor>, news: seq<D.MessageDescriptor>, at: seq<Str>, f: Finding)
    ensures Inside(olds, news, at, f) <==>
            exists j: nat, i: nat :: i < |news| && FirstMessage(olds, j, news[i].name)
                                     && Whole(Pair(olds[j], news[i], at + [Text(news[i].name)]), f)
  {
    hide PairFinding, IsUtf8, Text, FirstMessage;
    if steps: seq<(nat, nat)>, p: Pair :| Meet(olds, news, at, steps, p) && PairFinding(p, f) {
      var (j, i) := steps[0];
      FirstPlace(olds, j, news[i].name);
      var q := Pair(olds[j], news[i], at + [Text(news[i].name)]);
      if |steps| > 1 {
        assert Meet(q.was.nestedType, q.now.nestedType, q.at, steps[1..], p);
        assert Inside(q.was.nestedType, q.now.nestedType, q.at, f);
      }
      assert Whole(q, f);
    }
    forall j: nat, i: nat | i < |news| && FirstMessage(olds, j, news[i].name)
      ensures j < |olds|
    {
      FirstPlace(olds, j, news[i].name);
    }
    if j: nat, i: nat :| i < |news| && FirstMessage(olds, j, news[i].name)
                         && Whole(Pair(olds[j], news[i], at + [Text(news[i].name)]), f) {
      var q := Pair(olds[j], news[i], at + [Text(news[i].name)]);
      if PairFinding(q, f) {
        assert Meet(olds, news, at, [(j, i)], q);
      } else {
        var steps: seq<(nat, nat)>, p: Pair :| Meet(q.was.nestedType, q.now.nestedType, q.at, steps, p) && PairFinding(p, f);
        assert ([(j, i)] + steps)[1..] == steps;
        assert Meet(olds, news, at, [(j, i)] + steps, p);
      }
    }
  }

  lemma FirstPlace(ms: seq<D.MessageDescriptor>, j: nat, name: Option<Str>)
    requires FirstMessage(ms, j, name)
    ensures j < |ms|
  {
  }

  lemma {:induction false} InNewMessage(olds: seq<D.MessageDescriptor>, m: D.MessageDescriptor, at: seq<Str>, f: Finding)
    ensures f in NewMessage(olds, m, at) <==> NewMessageReport(olds, m, at, f)
    decreases m, 1
  {
    hide Compared, Whole, IsUtf8, Text, Find;
    var (found, to) := (Find(MessageNames(olds), m.name), at + [Text(m.name)]);
    FirstIs(MessageNames(olds), m.name, if found.Some? then found.value else 0);
    if found.Some? {
      assert FirstMessage(olds, found.value, m.name);
      InCompared(olds[found.value], m, to, f);
    }
  }

  lemma {:induction false} InCompared(was: D.MessageDescriptor, now: D.MessageDescriptor, at: seq<Str>, f: Finding)
    ensures f in Compared(was, now, at) <==> Whole(Pair(was, now, at), f)
    decreases now, 0
  {
    hide MessageFields, Reservations, Enums, NewMessages, OldMessages, Concat, FieldReport, ReservationReport;
    hide MessageReport, EnumReport, Inside, IsUtf8;
    InMessageFields(was, now, at, f);
    InReservations(was, now, at, f);
    InEnums(was.enumType, now.enumType, at, f);
    InMessages(was.nestedType, now.nestedType, at, f);
    assert f in Compared(was, now, at) <==>
           f in MessageFields(was, now, at) || f in Reservations(was, now, at)
           || f in Concat(NewMessages(was.nestedType, now.nestedType, at))
           || f in Concat(OldMessages(was.nestedType, now.nestedType, at)) || f in Enums(was.enumType, now.enumType, at);
  }

  lemma {:induction false} InMessages(olds: seq<D.MessageDescriptor>, news: seq<D.MessageDescriptor>, at: seq<Str>,
                                      f: Finding)
    ensures f in Concat(NewMessages(olds, news, at)) || f in Concat(OldMessages(olds, news, at)) <==>
            MessageReport(olds, news, at, f) || Inside(olds, news, at, f)
    decreases news, 2
  {
    hide Concat, NewMessage, When, Whole, Inside, IsUtf8, Text, NoMessage, FirstMessage, MessageNames, MessageReport;
    var (added, gone) := (NewMessages(olds, news, at), OldMessages(olds, news, at));
    InConcat(added, f);
    InConcat(gone, f);
    forall i | 0 <= i < |news|
      ensures f in added[i] <==> NewMessageReport(olds, news[i], at, f)
    {
      InNewMessage(olds, news[i], at, f);
    }
    forall j | 0 <= j < |olds|
      ensures f in gone[j] <==>
              NoMessage(news, olds[j].name) && f == Finding(Breaking, "MESSAGE_REMOVED", at + [Text(olds[j].name)])
    {
      InWhen(olds[j].name !in MessageNames(news), Breaking, "MESSAGE_REMOVED", at + [Text(olds[j].name)], f);
      NoMessageIs(news, olds[j].name);
    }
    MessageCases(olds, news, at, f, added, gone);
  }

  lemma MessageCases(olds: seq<D.MessageDescriptor>, news: seq<D.MessageDescriptor>, at: seq<Str>, f: Finding,
                     added: seq<seq<Finding>>, gone: seq<seq<Finding>>)
    requires |added| == |news| && |gone| == |olds|
    requires forall i :: 0 <= i < |news| ==> (f in added[i] <==> NewMessageReport(olds, news[i], at, f))
    requires forall j :: 0 <= j < |olds| ==>
               (f in gone[j] <==>
                NoMessage(news, olds[j].name) && f == Finding(Breaking, "MESSAGE_REMOVED", at + [Text(olds[j].name)]))
    ensures (exists i :: 0 <= i < |added| && f in added[i]) || (exists j :: 0 <= j < |gone| && f in gone[j])
            <==> MessageReport(olds, news, at, f) || Inside(olds, news, at, f)
  {
    hide Whole, Inside, IsUtf8, Text, NoMessage;
    InsideSplit(olds, news, at, f);
    if i :| 0 <= i < |added| && f in added[i] { assert NewMessageReport(olds, news[i], at, f); }
    if j :| 0 <= j < |gone| && f in gone[j] { assert NoMessage(news, olds[j].name); }
    if i :| 0 <= i < |news| && NoMessage(olds, news[i].name)
            && f == Finding(Safe, "MESSAGE_ADDED", at + [Text(news[i].name)]) {
      assert f in added[i];
    }
    if j: nat, i: nat :| i < |news| && FirstMessage(olds, j, news[i].name)
                         && Whole(Pair(olds[j], news[i], at + [Text(news[i].name)]), f) {
      assert f in added[i];
    }
    if j :| 0 <= j < |olds| && NoMessage(news, olds[j].name)
            && f == Finding(Breaking, "MESSAGE_REMOVED", at + [Text(olds[j].name)]) {
      assert f in gone[j];
    }
  }

  /**
   * The report of a comparison holds a finding of some severity and code about some names if and only if the two
   * schemas give cause for it: for every code, and for messages at every depth.
   */
  lemma ReportedExactly(was: D.FileDescriptor, now: D.FileDescriptor, f: Finding)
    ensures f in Findings(was, now) <==> FileReport(was, now, f)
  {
    hide Concat, NewMessages, OldMessages, Enums, Services, When, IsUtf8, Text, EnumReport, ServiceReport;
    hide MessageReport, Inside;
    InWhen(Text(was.package) != Text(now.package), Breaking, "PACKAGE_CHANGED", [Text(was.package), Text(now.package)], f);
    InMessages(was.messageType, now.messageType, [], f);
    InEnums(was.enumType, now.enumType, [], f);
    InServices(was.service, now.service, f);
  }
}
