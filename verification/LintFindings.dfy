/** Schema evolution findings (lint/lib.rs): what each comparison reports, and the loops that report it. */
module LintFindings {
  import opened Wrappers
  import opened WireBasics
  import opened Utf8
  import D = Descriptor

  datatype Severity = Safe | Warning | Breaking

  /** `subject` holds the names the message text mentions: the path of the message, then the item. */
  datatype Finding = Finding(severity: Severity, code: string, subject: seq<Str>)

  ghost predicate HasBreaking(r: seq<Finding>) {
    exists f :: f in r && f.severity.Breaking?
  }

  lemma Joined(a: seq<Finding>, b: seq<Finding>)
    ensures HasBreaking(a + b) <==> HasBreaking(a) || HasBreaking(b)
    ensures a + b == [] <==> a == [] && b == []
  {
    assert forall f :: f in a + b <==> f in a || f in b;
  }

  lemma Joined3(a: seq<Finding>, b: seq<Finding>, c: seq<Finding>)
    ensures HasBreaking(a + b + c) <==> HasBreaking(a) || HasBreaking(b) || HasBreaking(c)
    ensures a + b + c == [] <==> a == [] && b == [] && c == []
  {
    Joined(a + b, c);
    Joined(a, b);
  }

  // ------------------------------------------------------------------ finding by name

  /** The first place of `name`, as `iter().find` gives it. */
  function Find(names: seq<Option<Str>>, name: Option<Str>): (r: Option<nat>)
    ensures r.Some? ==> r.value < |names| && names[r.value] == name && name !in names[..r.value]
    ensures r.None? ==> name !in names
  {
    if |names| == 0 then None
    else if names[0] == name then Some(0)
    else
      var rest := Find(names[1..], name);
      if rest.None? then None
      else
        assert names[..rest.value + 1] == [names[0]] + names[1..][..rest.value];
        Some(rest.value + 1)
  }

  function MessageNames(ms: seq<D.MessageDescriptor>): (names: seq<Option<Str>>)
    ensures |names| == |ms| && forall i :: 0 <= i < |ms| ==> names[i] == ms[i].name
  {
    seq(|ms|, i requires 0 <= i < |ms| => ms[i].name)
  }

  function EnumNames(es: seq<D.EnumDescriptor>): (names: seq<Option<Str>>)
    ensures |names| == |es| && forall i :: 0 <= i < |es| ==> names[i] == es[i].name
  {
    seq(|es|, i requires 0 <= i < |es| => es[i].name)
  }

  function ServiceNames(ss: seq<D.ServiceDescriptor>): (names: seq<Option<Str>>)
    ensures |names| == |ss| && forall i :: 0 <= i < |ss| ==> names[i] == ss[i].name
  {
    seq(|ss|, i requires 0 <= i < |ss| => ss[i].name)
  }

  function MethodNames(ms: seq<D.MethodDescriptor>): (names: seq<Option<Str>>)
    ensures |names| == |ms| && forall i :: 0 <= i < |ms| ==> names[i] == ms[i].name
  {
    seq(|ms|, i requires 0 <= i < |ms| => ms[i].name)
  }

  // --------------------------------------------------------------------------- ranges

  /** `range_covers`: `end == 0` stands for the single number `start`. */
  predicate RangeCovers(start: i32, end: i32, num: i32) {
    if start > num then false else if end == 0 then start == num else num <= end
  }

  predicate RangeCoversRange(startA: i32, endA: i32, startB: i32, endB: i32) {
    RangeCovers(startA, endA, startB) && RangeCovers(startA, endA, if endB == 0 then startB else endB)
  }

  /** The test `lint_message_fields` writes out itself. */
  predicate ReservedBy(rr: D.ReservedRange, num: i32) {
    rr.start <= num && ((rr.end == 0 && rr.start == num) || num <= rr.end)
  }

  predicate NumberReserved(m: D.MessageDescriptor, num: i32) {
    exists i :: 0 <= i < |m.reservedRange| && ReservedBy(m.reservedRange[i], num)
  }

  predicate RangeKept(rr: D.ReservedRange, news: seq<D.ReservedRange>) {
    exists i :: 0 <= i < |news| && RangeCoversRange(news[i].start, news[i].end, rr.start, rr.end)
  }

  predicate ExtensionKept(er: D.ExtensionRange, news: seq<D.ExtensionRange>) {
    exists i :: 0 <= i < |news| && RangeCoversRange(news[i].start, news[i].end, er.start, er.end)
  }

  // --------------------------------------------------------------------------- fields

  function Number(f: D.FieldDescriptor): i32 {
    if f.number.Some? then f.number.value else 0
  }

  /** The index by number; a repeated number keeps its last field. */
  function ByNumber(fs: seq<D.FieldDescriptor>): (m: map<i32, D.FieldDescriptor>)
    ensures forall i :: 0 <= i < |fs| ==> Number(fs[i]) in m
    ensures forall n :: n in m ==> m[n] in fs && Number(m[n]) == n
  {
    if |fs| == 0 then map[]
    else ByNumber(fs[..|fs| - 1])[Number(fs[|fs| - 1]) := fs[|fs| - 1]]
  }

  function When(c: bool, severity: Severity, code: string, subject: seq<Str>): (r: seq<Finding>) {
    if c then [Finding(severity, code, subject)] else []
  }

  /** The `json_name` comparison. */
  function JsonFindings(was: Option<Str>, now: Option<Str>, at: seq<Str>): seq<Finding> {
    if was.None? then []
    else if now.None? then [Finding(Warning, "JSON_NAME_CHANGED", at)]
    else When(was.value != now.value, Breaking, "JSON_NAME_CHANGED", at)
  }

  /** `check_field_compat` */
  function FieldCompat(path: seq<Str>, was: D.FieldDescriptor, now: D.FieldDescriptor): seq<Finding> {
    var at := path + [Text(now.name)];
    When(was.ty != now.ty, Breaking, "FIELD_TYPE_CHANGED", at)
    + When(was.fieldLabel != now.fieldLabel, Breaking, "FIELD_LABEL_CHANGED", at)
    + When(was.typeName != now.typeName, Breaking, "FIELD_TYPE_NAME_CHANGED", at)
    + JsonFindings(was.jsonName, now.jsonName, at)
    + When(was.defaultValue != now.defaultValue, Warning, "DEFAULT_VALUE_CHANGED", at)
  }

  function NewField(olds: map<i32, D.FieldDescriptor>, f: D.FieldDescriptor, path: seq<Str>): seq<Finding> {
    if Number(f) !in olds then [Finding(Warning, "FIELD_ADDED", path + [Text(f.name)])]
    else
      var was := olds[Number(f)];
      if Text(was.name) != Text(f.name) then
        [Finding(Breaking, "FIELD_NUMBER_REUSED", path + [Text(was.name), Text(f.name)])]
      else FieldCompat(path, was, f)
  }

  predicate HasNumber(fs: seq<D.FieldDescriptor>, num: i32) {
    exists i :: 0 <= i < |fs| && fs[i].number == Some(num)
  }

  function OldField(now: D.MessageDescriptor, f: D.FieldDescriptor, path: seq<Str>): seq<Finding> {
    if HasNumber(now.field, Number(f)) then []
    else if NumberReserved(now, Number(f)) || Text(f.name) in now.reservedName then
      [Finding(Safe, "FIELD_RESERVED", path + [Text(f.name)])]
    else [Finding(Breaking, "FIELD_REMOVED", path + [Text(f.name)])]
  }

  // ------------------------------------------------------ what a whole comparison reports

  function Concat(parts: seq<seq<Finding>>): seq<Finding> {
    if |parts| == 0 then [] else Concat(parts[..|parts| - 1]) + parts[|parts| - 1]
  }

  ghost predicate AllEmpty(parts: seq<seq<Finding>>) {
    forall i :: 0 <= i < |parts| ==> parts[i] == []
  }

  ghost predicate SomeBreaking(parts: seq<seq<Finding>>) {
    exists i :: 0 <= i < |parts| && HasBreaking(parts[i])
  }

  lemma {:induction false} ConcatFacts(parts: seq<seq<Finding>>)
    ensures Concat(parts) == [] <==> AllEmpty(parts)
    ensures HasBreaking(Concat(parts)) <==> SomeBreaking(parts)
  {
    if |parts| != 0 {
      hide HasBreaking, AllEmpty, SomeBreaking;
      var last := |parts| - 1;
      ConcatFacts(parts[..last]);
      Joined(Concat(parts[..last]), parts[last]);
      PartsSplit(parts);
    }
  }

  lemma PartsSplit(parts: seq<seq<Finding>>)
    requires |parts| > 0
    ensures AllEmpty(parts) <==> AllEmpty(parts[..|parts| - 1]) && parts[|parts| - 1] == []
    ensures SomeBreaking(parts) <==> SomeBreaking(parts[..|parts| - 1]) || HasBreaking(parts[|parts| - 1])
  {
    hide HasBreaking;
    var front := parts[..|parts| - 1];
    if SomeBreaking(front) {
      var i :| 0 <= i < |front| && HasBreaking(front[i]);
      assert HasBreaking(parts[i]);
    }
  }

  function NewFields(olds: map<i32, D.FieldDescriptor>, fs: seq<D.FieldDescriptor>, path: seq<Str>): seq<seq<Finding>> {
    seq(|fs|, i requires 0 <= i < |fs| => NewField(olds, fs[i], path))
  }

  function OldFields(now: D.MessageDescriptor, fs: seq<D.FieldDescriptor>, path: seq<Str>): seq<seq<Finding>> {
    seq(|fs|, i requires 0 <= i < |fs| => OldField(now, fs[i], path))
  }

  /** `lint_message_fields` */
  function MessageFields(was: D.MessageDescriptor, now: D.MessageDescriptor, path: seq<Str>): seq<Finding> {
    Concat(NewFields(ByNumber(was.field), now.field, path)) + Concat(OldFields(now, was.field, path))
  }

  function ReservedRanges(was: D.MessageDescriptor, now: D.MessageDescriptor, path: seq<Str>): seq<seq<Finding>> {
    seq(|was.reservedRange|, i requires 0 <= i < |was.reservedRange| =>
      When(!RangeKept(was.reservedRange[i], now.reservedRange), Breaking, "RESERVED_RANGE_SHRUNK", path))
  }

  function ReservedNames(was: D.MessageDescriptor, now: D.MessageDescriptor, path: seq<Str>): seq<seq<Finding>> {
    seq(|was.reservedName|, i requires 0 <= i < |was.reservedName| =>
      When(was.reservedName[i] !in now.reservedName, Breaking, "RESERVED_NAME_REMOVED", path + [was.reservedName[i]]))
  }

  function ExtensionRanges(was: D.MessageDescriptor, now: D.MessageDescriptor, path: seq<Str>): seq<seq<Finding>> {
    seq(|was.extensionRange|, i requires 0 <= i < |was.extensionRange| =>
      When(!ExtensionKept(was.extensionRange[i], now.extensionRange), Warning, "EXTENSION_RANGE_REMOVED", path))
  }

  /** `check_reserved_and_extensions` */
  function Reservations(was: D.MessageDescriptor, now: D.MessageDescriptor, path: seq<Str>): seq<Finding> {
    Concat(ReservedRanges(was, now, path)) + Concat(ReservedNames(was, now, path))
    + Concat(ExtensionRanges(was, now, path))
  }

  // ---------------------------------------------------------------------------- enums

  predicate HasValue(e: D.EnumDescriptor, number: Option<i32>) {
    exists i :: 0 <= i < |e.value| && e.value[i].number == number
  }

  function ValuesRemoved(was: D.EnumDescriptor, now: D.EnumDescriptor, path: seq<Str>): seq<seq<Finding>> {
    seq(|was.value|, i requires 0 <= i < |was.value| =>
      When(!HasValue(now, was.value[i].number), Breaking, "ENUM_VALUE_REMOVED", path + [Text(was.value[i].name)]))
  }

  function ValuesAdded(was: D.EnumDescriptor, now: D.EnumDescriptor, path: seq<Str>): seq<seq<Finding>> {
    seq(|now.value|, i requires 0 <= i < |now.value| =>
      When(!HasValue(was, now.value[i].number), Warning, "ENUM_VALUE_ADDED", path + [Text(now.value[i].name)]))
  }

  function NewEnum(olds: seq<D.EnumDescriptor>, e: D.EnumDescriptor, path: seq<Str>): seq<Finding> {
    var (found, at) := (Find(EnumNames(olds), e.name), path + [Text(e.name)]);
    if found.None? then [Finding(Safe, "ENUM_ADDED", at)]
    else Concat(ValuesRemoved(olds[found.value], e, at)) + Concat(ValuesAdded(olds[found.value], e, at))
  }

  function NewEnums(olds: seq<D.EnumDescriptor>, news: seq<D.EnumDescriptor>, path: seq<Str>): seq<seq<Finding>> {
    seq(|news|, i requires 0 <= i < |news| => NewEnum(olds, news[i], path))
  }

  function OldEnums(olds: seq<D.EnumDescriptor>, news: seq<D.EnumDescriptor>, path: seq<Str>): seq<seq<Finding>> {
    seq(|olds|, i requires 0 <= i < |olds| =>
      When(olds[i].name !in EnumNames(news), Breaking, "ENUM_REMOVED", path + [Text(olds[i].name)]))
  }

  /** `lint_enums` */
  function Enums(olds: seq<D.EnumDescriptor>, news: seq<D.EnumDescriptor>, path: seq<Str>): seq<Finding> {
    Concat(NewEnums(olds, news, path)) + Concat(OldEnums(olds, news, path))
  }

  // ------------------------------------------------------------------------- messages

  function NewMessage(olds: seq<D.MessageDescriptor>, m: D.MessageDescriptor, path: seq<Str>): seq<Finding>
    decreases m, 1
  {
    var (found, at) := (Find(MessageNames(olds), m.name), path + [Text(m.name)]);
    if found.None? then [Finding(Safe, "MESSAGE_ADDED", at)]
    else Compared(olds[found.value], m, at)
  }

  /** The findings about one message and everything inside it. */
  function Compared(was: D.MessageDescriptor, now: D.MessageDescriptor, at: seq<Str>): seq<Finding>
    decreases now, 0
  {
    MessageFields(was, now, at) + Reservations(was, now, at)
    + Concat(NewMessages(was.nestedType, now.nestedType, at))
    + Concat(OldMessages(was.nestedType, now.nestedType, at))
    + Enums(was.enumType, now.enumType, at)
  }

  function NewMessages(olds: seq<D.MessageDescriptor>, news: seq<D.MessageDescriptor>, path: seq<Str>)
    : seq<seq<Finding>>
    decreases news, 2
  {
    seq(|news|, i requires 0 <= i < |news| => NewMessage(olds, news[i], path))
  }

  function OldMessages(olds: seq<D.MessageDescriptor>, news: seq<D.MessageDescriptor>, path: seq<Str>)
    : seq<seq<Finding>>
  {
    seq(|olds|, i requires 0 <= i < |olds| =>
      When(olds[i].name !in MessageNames(news), Breaking, "MESSAGE_REMOVED", path + [Text(olds[i].name)]))
  }

  /** `lint_messages` */
  function Messages(olds: seq<D.MessageDescriptor>, news: seq<D.MessageDescriptor>, path: seq<Str>): seq<Finding> {
    Concat(NewMessages(olds, news, path)) + Concat(OldMessages(olds, news, path))
  }

  // ------------------------------------------------------------------------- services

  /** `check_method_compat` */
  function MethodCompat(path: seq<Str>, was: D.MethodDescriptor, now: D.MethodDescriptor): seq<Finding> {
    var at := path + [Text(now.name)];
    When(was.inputType != now.inputType, Breaking, "METHOD_INPUT_CHANGED", at)
    + When(was.outputType != now.outputType, Breaking, "METHOD_OUTPUT_CHANGED", at)
    + When(was.clientStreaming != now.clientStreaming || was.serverStreaming != now.serverStreaming, Breaking,
           "METHOD_STREAMING_CHANGED", at)
  }

  function NewMethod(olds: seq<D.MethodDescriptor>, m: D.MethodDescriptor, path: seq<Str>): seq<Finding> {
    var found := Find(MethodNames(olds), m.name);
    if found.None? then [Finding(Warning, "METHOD_ADDED", path + [Text(m.name)])]
    else MethodCompat(path, olds[found.value], m)
  }

  function NewMethods(olds: seq<D.MethodDescriptor>, news: seq<D.MethodDescriptor>, path: seq<Str>)
    : seq<seq<Finding>>
  {
    seq(|news|, i requires 0 <= i < |news| => NewMethod(olds, news[i], path))
  }

  function OldMethods(olds: seq<D.MethodDescriptor>, news: seq<D.MethodDescriptor>, path: seq<Str>)
    : seq<seq<Finding>>
  {
    seq(|olds|, i requires 0 <= i < |olds| =>
      When(olds[i].name !in MethodNames(news), Breaking, "METHOD_REMOVED", path + [Text(olds[i].name)]))
  }

  /** `lint_methods` */
  function Methods(olds: seq<D.MethodDescriptor>, news: seq<D.MethodDescriptor>, path: seq<Str>): seq<Finding> {
    Concat(NewMethods(olds, news, path)) + Concat(OldMethods(olds, news, path))
  }

  function NewService(olds: seq<D.ServiceDescriptor>, s: D.ServiceDescriptor): seq<Finding> {
    var found := Find(ServiceNames(olds), s.name);
    if found.None? then [Finding(Safe, "SERVICE_ADDED", [Text(s.name)])]
    else Methods(olds[found.value].methods, s.methods, [Text(s.name)])
  }

  function NewServices(olds: seq<D.ServiceDescriptor>, news: seq<D.ServiceDescriptor>): seq<seq<Finding>> {
    seq(|news|, i requires 0 <= i < |news| => NewService(olds, news[i]))
  }

  function OldServices(olds: seq<D.ServiceDescriptor>, news: seq<D.ServiceDescriptor>): seq<seq<Finding>> {
    seq(|olds|, i requires 0 <= i < |olds| =>
      When(olds[i].name !in ServiceNames(news), Breaking, "SERVICE_REMOVED", [Text(olds[i].name)]))
  }

  /** `lint_services` */
  function Services(olds: seq<D.ServiceDescriptor>, news: seq<D.ServiceDescriptor>): seq<Finding> {
    Concat(NewServices(olds, news)) + Concat(OldServices(olds, news))
  }

  // ----------------------------------------------------------------------------- files

  function PackageFindings(was: D.FileDescriptor, now: D.FileDescriptor): seq<Finding> {
    When(Text(was.package) != Text(now.package), Breaking, "PACKAGE_CHANGED",
         [Text(was.package), Text(now.package)])
  }

  /** `lint` */
  function Findings(was: D.FileDescriptor, now: D.FileDescriptor): seq<Finding> {
    PackageFindings(was, now) + Messages(was.messageType, now.messageType, [])
    + Enums(was.enumType, now.enumType, []) + Services(was.service, now.service)
  }
}
