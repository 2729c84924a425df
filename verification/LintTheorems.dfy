/**
 * What an evolution without Breaking findings guarantees (lint/lib.rs): the findings decide a relation between
 * schemas, stated over the two schemas alone.
 */
module LintTheorems {
  import opened Wrappers
  import opened WireBasics
  import opened Utf8
  import opened LintFindings
  import D = Descriptor

  // ------------------------------------------------------------ the relation, declaratively

  predicate SameKey(was: Option<Str>, now: Option<Str>) {
    was.Some? && now.Some? ==> was.value == now.value
  }

  predicate KeepsMeaning(was: D.FieldDescriptor, now: D.FieldDescriptor) {
    && Text(was.name) == Text(now.name)
    && was.ty == now.ty && was.fieldLabel == now.fieldLabel && was.typeName == now.typeName
    && SameKey(was.jsonName, now.jsonName)
  }

  predicate Retired(now: D.MessageDescriptor, f: D.FieldDescriptor) {
    NumberReserved(now, Number(f)) || Text(f.name) in now.reservedName
  }

  ghost predicate FieldsKept(was: D.MessageDescriptor, now: D.MessageDescriptor) {
    && (forall i :: 0 <= i < |now.field| && Number(now.field[i]) in ByNumber(was.field)
          ==> KeepsMeaning(ByNumber(was.field)[Number(now.field[i])], now.field[i]))
    && (forall i :: 0 <= i < |was.field|
          ==> HasNumber(now.field, Number(was.field[i])) || Retired(now, was.field[i]))
  }

  ghost predicate ReservationsKept(was: D.MessageDescriptor, now: D.MessageDescriptor) {
    && (forall i :: 0 <= i < |was.reservedRange| ==> RangeKept(was.reservedRange[i], now.reservedRange))
    && (forall i :: 0 <= i < |was.reservedName| ==> was.reservedName[i] in now.reservedName)
  }

  ghost predicate EnumKept(was: D.EnumDescriptor, now: D.EnumDescriptor) {
    forall i :: 0 <= i < |was.value| ==> HasValue(now, was.value[i].number)
  }

  ghost predicate EnumsKept(olds: seq<D.EnumDescriptor>, news: seq<D.EnumDescriptor>) {
    && (forall i :: 0 <= i < |olds| ==> olds[i].name in EnumNames(news))
    && (forall i :: 0 <= i < |news| ==>
          var found := Find(EnumNames(olds), news[i].name); found.Some? ==> EnumKept(olds[found.value], news[i]))
  }

  /** One message may replace another, everything nested in it included. */
  ghost predicate Compatible(was: D.MessageDescriptor, now: D.MessageDescriptor)
    decreases now, 0
  {
    && FieldsKept(was, now) && ReservationsKept(was, now) && EnumsKept(was.enumType, now.enumType)
    && CompatibleAll(was.nestedType, now.nestedType)
  }

  ghost predicate CompatibleAll(olds: seq<D.MessageDescriptor>, news: seq<D.MessageDescriptor>)
    decreases news, 1
  {
    && (forall i :: 0 <= i < |olds| ==> olds[i].name in MessageNames(news))
    && (forall i :: 0 <= i < |news| ==>
          var found := Find(MessageNames(olds), news[i].name); found.Some? ==> Compatible(olds[found.value], news[i]))
  }

  predicate SameMethod(was: D.MethodDescriptor, now: D.MethodDescriptor) {
    && was.inputType == now.inputType && was.outputType == now.outputType
    && was.clientStreaming == now.clientStreaming && was.serverStreaming == now.serverStreaming
  }

  ghost predicate MethodsKept(olds: seq<D.MethodDescriptor>, news: seq<D.MethodDescriptor>) {
    && (forall i :: 0 <= i < |olds| ==> olds[i].name in MethodNames(news))
    && (forall i :: 0 <= i < |news| ==>
          var found := Find(MethodNames(olds), news[i].name); found.Some? ==> SameMethod(olds[found.value], news[i]))
  }

  ghost predicate ServicesKept(olds: seq<D.ServiceDescriptor>, news: seq<D.ServiceDescriptor>) {
    && (forall i :: 0 <= i < |olds| ==> olds[i].name in ServiceNames(news))
    && (forall i :: 0 <= i < |news| ==>
          var found := Find(ServiceNames(olds), news[i].name);
          found.Some? ==> MethodsKept(olds[found.value].methods, news[i].methods))
  }

  ghost predicate FileCompatible(was: D.FileDescriptor, now: D.FileDescriptor) {
    && Text(was.package) == Text(now.package)
    && CompatibleAll(was.messageType, now.messageType)
    && EnumsKept(was.enumType, now.enumType) && ServicesKept(was.service, now.service)
  }

  // ------------------------------------------------------------ the findings decide it

  lemma WhenBreaking(c: bool, severity: Severity, code: string, subject: seq<Str>)
    ensures HasBreaking(When(c, severity, code, subject)) <==> c && severity == Breaking
  {
    if c { assert Finding(severity, code, subject) in When(c, severity, code, subject); }
  }

  lemma OneBreaking(f: Finding)
    ensures HasBreaking([f]) <==> f.severity == Breaking
  {
    assert f in [f];
  }

  lemma FieldCompatDecides(path: seq<Str>, was: D.FieldDescriptor, now: D.FieldDescriptor)
    requires Text(was.name) == Text(now.name)
    ensures HasBreaking(FieldCompat(path, was, now)) <==> !KeepsMeaning(was, now)
  {
    hide HasBreaking, When, JsonFindings;
    var at := path + [Text(now.name)];
    var a := When(was.ty != now.ty, Breaking, "FIELD_TYPE_CHANGED", at);
    var b := When(was.fieldLabel != now.fieldLabel, Breaking, "FIELD_LABEL_CHANGED", at);
    var c := When(was.typeName != now.typeName, Breaking, "FIELD_TYPE_NAME_CHANGED", at);
    var d := JsonFindings(was.jsonName, now.jsonName, at);
    var e := When(was.defaultValue != now.defaultValue, Warning, "DEFAULT_VALUE_CHANGED", at);
    WhenBreaking(was.ty != now.ty, Breaking, "FIELD_TYPE_CHANGED", at);
    WhenBreaking(was.fieldLabel != now.fieldLabel, Breaking, "FIELD_LABEL_CHANGED", at);
    WhenBreaking(was.typeName != now.typeName, Breaking, "FIELD_TYPE_NAME_CHANGED", at);
    WhenBreaking(was.defaultValue != now.defaultValue, Warning, "DEFAULT_VALUE_CHANGED", at);
    JsonDecides(was.jsonName, now.jsonName, at);
    Joined3(a, b, c);
    Joined3(a + b + c, d, e);
  }

  lemma JsonDecides(was: Option<Str>, now: Option<Str>, at: seq<Str>)
    ensures HasBreaking(JsonFindings(was, now, at)) <==> !SameKey(was, now)
  {
    hide HasBreaking;
    if was.Some? && now.Some? { WhenBreaking(was.value != now.value, Breaking, "JSON_NAME_CHANGED", at); }
    if was.Some? && now.None? { OneBreaking(Finding(Warning, "JSON_NAME_CHANGED", at)); }
    NoneBreaking();
  }

  lemma NoneBreaking()
    ensures !HasBreaking([])
  {
  }

  lemma NewFieldDecides(olds: map<i32, D.FieldDescriptor>, f: D.FieldDescriptor, path: seq<Str>)
    ensures HasBreaking(NewField(olds, f, path)) <==> Number(f) in olds && !KeepsMeaning(olds[Number(f)], f)
  {
    hide HasBreaking, FieldCompat;
    if Number(f) !in olds {
      OneBreaking(Finding(Warning, "FIELD_ADDED", path + [Text(f.name)]));
    } else {
      var was := olds[Number(f)];
      OneBreaking(Finding(Breaking, "FIELD_NUMBER_REUSED", path + [Text(was.name), Text(f.name)]));
      if Text(was.name) == Text(f.name) { FieldCompatDecides(path, was, f); }
    }
  }

  lemma OldFieldDecides(now: D.MessageDescriptor, f: D.FieldDescriptor, path: seq<Str>)
    ensures HasBreaking(OldField(now, f, path)) <==> !HasNumber(now.field, Number(f)) && !Retired(now, f)
  {
    hide HasBreaking;
    NoneBreaking();
    OneBreaking(Finding(Safe, "FIELD_RESERVED", path + [Text(f.name)]));
    OneBreaking(Finding(Breaking, "FIELD_REMOVED", path + [Text(f.name)]));
  }

  lemma FieldsDecide(was: D.MessageDescriptor, now: D.MessageDescriptor, path: seq<Str>)
    ensures HasBreaking(MessageFields(was, now, path)) <==> !FieldsKept(was, now)
  {
    hide HasBreaking, Concat, NewField, OldField, ByNumber, KeepsMeaning, Retired, HasNumber;
    var olds := ByNumber(was.field);
    var (news, gone) := (NewFields(olds, now.field, path), OldFields(now, was.field, path));
    ConcatFacts(news);
    ConcatFacts(gone);
    Joined(Concat(news), Concat(gone));
    forall i | 0 <= i < |now.field|
      ensures HasBreaking(news[i]) <==>
              Number(now.field[i]) in olds && !KeepsMeaning(olds[Number(now.field[i])], now.field[i])
    {
      NewFieldDecides(olds, now.field[i], path);
    }
    forall i | 0 <= i < |was.field|
      ensures HasBreaking(gone[i]) <==> !HasNumber(now.field, Number(was.field[i])) && !Retired(now, was.field[i])
    {
      OldFieldDecides(now, was.field[i], path);
    }
  }

  lemma ReservationsDecide(was: D.MessageDescriptor, now: D.MessageDescriptor, path: seq<Str>)
    ensures HasBreaking(Reservations(was, now, path)) <==> !ReservationsKept(was, now)
  {
    hide HasBreaking, Concat, RangeKept, ExtensionKept, When;
    var (a, b, c) := (ReservedRanges(was, now, path), ReservedNames(was, now, path), ExtensionRanges(was, now, path));
    ConcatFacts(a);
    ConcatFacts(b);
    ConcatFacts(c);
    Joined3(Concat(a), Concat(b), Concat(c));
    forall i | 0 <= i < |a|
      ensures HasBreaking(a[i]) <==> !RangeKept(was.reservedRange[i], now.reservedRange)
    {
      WhenBreaking(!RangeKept(was.reservedRange[i], now.reservedRange), Breaking, "RESERVED_RANGE_SHRUNK", path);
    }
    forall i | 0 <= i < |b|
      ensures HasBreaking(b[i]) <==> was.reservedName[i] !in now.reservedName
    {
      WhenBreaking(was.reservedName[i] !in now.reservedName, Breaking, "RESERVED_NAME_REMOVED",
                   path + [was.reservedName[i]]);
    }
    forall i | 0 <= i < |c|
      ensures !HasBreaking(c[i])
    {
      WhenBreaking(!ExtensionKept(was.extensionRange[i], now.extensionRange), Warning, "EXTENSION_RANGE_REMOVED", path);
    }
  }

  lemma EnumDecides(was: D.EnumDescriptor, now: D.EnumDescriptor, at: seq<Str>)
    ensures HasBreaking(Concat(ValuesRemoved(was, now, at)) + Concat(ValuesAdded(was, now, at)))
            <==> !EnumKept(was, now)
  {
    hide HasBreaking, Concat, HasValue, When;
    var (gone, added) := (ValuesRemoved(was, now, at), ValuesAdded(was, now, at));
    ConcatFacts(gone);
    ConcatFacts(added);
    Joined(Concat(gone), Concat(added));
    forall i | 0 <= i < |gone|
      ensures HasBreaking(gone[i]) <==> !HasValue(now, was.value[i].number)
    {
      WhenBreaking(!HasValue(now, was.value[i].number), Breaking, "ENUM_VALUE_REMOVED", at + [Text(was.value[i].name)]);
    }
    forall i | 0 <= i < |added|
      ensures !HasBreaking(added[i])
    {
      WhenBreaking(!HasValue(was, now.value[i].number), Warning, "ENUM_VALUE_ADDED", at + [Text(now.value[i].name)]);
    }
  }

  lemma NewEnumDecides(olds: seq<D.EnumDescriptor>, e: D.EnumDescriptor, path: seq<Str>)
    ensures var found := Find(EnumNames(olds), e.name);
            HasBreaking(NewEnum(olds, e, path)) <==> found.Some? && !EnumKept(olds[found.value], e)
  {
    hide HasBreaking, Concat, EnumKept;
    var (found, at) := (Find(EnumNames(olds), e.name), path + [Text(e.name)]);
    OneBreaking(Finding(Safe, "ENUM_ADDED", at));
    if found.Some? { EnumDecides(olds[found.value], e, at); }
  }

  lemma EnumsDecide(olds: seq<D.EnumDescriptor>, news: seq<D.EnumDescriptor>, path: seq<Str>)
    ensures HasBreaking(Enums(olds, news, path)) <==> !EnumsKept(olds, news)
  {
    hide HasBreaking, Concat, EnumKept, NewEnum, Find, When;
    var (added, gone) := (NewEnums(olds, news, path), OldEnums(olds, news, path));
    ConcatFacts(added);
    ConcatFacts(gone);
    Joined(Concat(added), Concat(gone));
    forall i | 0 <= i < |added|
      ensures var found := Find(EnumNames(olds), news[i].name);
              HasBreaking(added[i]) <==> found.Some? && !EnumKept(olds[found.value], news[i])
    {
      NewEnumDecides(olds, news[i], path);
    }
    forall i | 0 <= i < |gone|
      ensures HasBreaking(gone[i]) <==> olds[i].name !in EnumNames(news)
    {
      WhenBreaking(olds[i].name !in EnumNames(news), Breaking, "ENUM_REMOVED", path + [Text(olds[i].name)]);
    }
  }

  lemma {:induction false} ComparedDecides(was: D.MessageDescriptor, now: D.MessageDescriptor, at: seq<Str>)
    ensures HasBreaking(Compared(was, now, at)) <==> !Compatible(was, now)
    decreases now, 0
  {
    hide HasBreaking, Concat, MessageFields, Reservations, Enums, FieldsKept, ReservationsKept, EnumsKept, CompatibleAll;
    FieldsDecide(was, now, at);
    ReservationsDecide(was, now, at);
    EnumsDecide(was.enumType, now.enumType, at);
    MessagesDecide(was.nestedType, now.nestedType, at);
    var (a, b) := (MessageFields(was, now, at), Reservations(was, now, at));
    var c := Concat(NewMessages(was.nestedType, now.nestedType, at));
    var d := Concat(OldMessages(was.nestedType, now.nestedType, at));
    var e := Enums(was.enumType, now.enumType, at);
    Joined3(a, b, c);
    Joined3(a + b + c, d, e);
    Joined(c, d);
  }

  lemma {:induction false} MessagesDecide(olds: seq<D.MessageDescriptor>, news: seq<D.MessageDescriptor>,
                                         path: seq<Str>)
    ensures HasBreaking(Messages(olds, news, path)) <==> !CompatibleAll(olds, news)
    decreases news, 2
  {
    hide HasBreaking, Concat, Compatible, NewMessage, Find, When;
    var (added, gone) := (NewMessages(olds, news, path), OldMessages(olds, news, path));
    ConcatFacts(added);
    ConcatFacts(gone);
    Joined(Concat(added), Concat(gone));
    forall i | 0 <= i < |added|
      ensures var found := Find(MessageNames(olds), news[i].name);
              HasBreaking(added[i]) <==> found.Some? && !Compatible(olds[found.value], news[i])
    {
      NewMessageDecides(olds, news[i], path);
    }
    forall i | 0 <= i < |gone|
      ensures HasBreaking(gone[i]) <==> olds[i].name !in MessageNames(news)
    {
      WhenBreaking(olds[i].name !in MessageNames(news), Breaking, "MESSAGE_REMOVED", path + [Text(olds[i].name)]);
    }
  }

  lemma {:induction false} NewMessageDecides(olds: seq<D.MessageDescriptor>, m: D.MessageDescriptor, path: seq<Str>)
    ensures var found := Find(MessageNames(olds), m.name);
            HasBreaking(NewMessage(olds, m, path)) <==> found.Some? && !Compatible(olds[found.value], m)
    decreases m, 1
  {
    hide HasBreaking, Compared, Compatible;
    var (found, at) := (Find(MessageNames(olds), m.name), path + [Text(m.name)]);
    OneBreaking(Finding(Safe, "MESSAGE_ADDED", at));
    if found.Some? { ComparedDecides(olds[found.value], m, at); }
  }

  lemma NewMethodDecides(olds: seq<D.MethodDescriptor>, m: D.MethodDescriptor, path: seq<Str>)
    ensures var found := Find(MethodNames(olds), m.name);
            HasBreaking(NewMethod(olds, m, path)) <==> found.Some? && !SameMethod(olds[found.value], m)
  {
    hide HasBreaking, When;
    var (found, at) := (Find(MethodNames(olds), m.name), path + [Text(m.name)]);
    OneBreaking(Finding(Warning, "METHOD_ADDED", at));
    if found.Some? {
      var was := olds[found.value];
      var streaming := was.clientStreaming != m.clientStreaming || was.serverStreaming != m.serverStreaming;
      WhenBreaking(was.inputType != m.inputType, Breaking, "METHOD_INPUT_CHANGED", at);
      WhenBreaking(was.outputType != m.outputType, Breaking, "METHOD_OUTPUT_CHANGED", at);
      WhenBreaking(streaming, Breaking, "METHOD_STREAMING_CHANGED", at);
      Joined3(When(was.inputType != m.inputType, Breaking, "METHOD_INPUT_CHANGED", at),
              When(was.outputType != m.outputType, Breaking, "METHOD_OUTPUT_CHANGED", at),
              When(streaming, Breaking, "METHOD_STREAMING_CHANGED", at));
    }
  }

  lemma MethodsDecide(olds: seq<D.MethodDescriptor>, news: seq<D.MethodDescriptor>, path: seq<Str>)
    ensures HasBreaking(Methods(olds, news, path)) <==> !MethodsKept(olds, news)
  {
    hide HasBreaking, Concat, NewMethod, Find, When, SameMethod;
    var (added, gone) := (NewMethods(olds, news, path), OldMethods(olds, news, path));
    ConcatFacts(added);
    ConcatFacts(gone);
    Joined(Concat(added), Concat(gone));
    forall i | 0 <= i < |added|
      ensures var found := Find(MethodNames(olds), news[i].name);
              HasBreaking(added[i]) <==> found.Some? && !SameMethod(olds[found.value], news[i])
    {
      NewMethodDecides(olds, news[i], path);
    }
    forall i | 0 <= i < |gone|
      ensures HasBreaking(gone[i]) <==> olds[i].name !in MethodNames(news)
    {
      WhenBreaking(olds[i].name !in MethodNames(news), Breaking, "METHOD_REMOVED", path + [Text(olds[i].name)]);
    }
  }

  lemma NewServiceDecides(olds: seq<D.ServiceDescriptor>, s: D.ServiceDescriptor)
    ensures var found := Find(ServiceNames(olds), s.name);
            HasBreaking(NewService(olds, s)) <==> found.Some? && !MethodsKept(olds[found.value].methods, s.methods)
  {
    hide HasBreaking, Methods, MethodsKept;
    var found := Find(ServiceNames(olds), s.name);
    OneBreaking(Finding(Safe, "SERVICE_ADDED", [Text(s.name)]));
    if found.Some? { MethodsDecide(olds[found.value].methods, s.methods, [Text(s.name)]); }
  }

  lemma ServicesDecide(olds: seq<D.ServiceDescriptor>, news: seq<D.ServiceDescriptor>)
    ensures HasBreaking(Services(olds, news)) <==> !ServicesKept(olds, news)
  {
    hide HasBreaking, Concat, NewService, Find, When, MethodsKept;
    var (added, gone) := (NewServices(olds, news), OldServices(olds, news));
    ConcatFacts(added);
    ConcatFacts(gone);
    Joined(Concat(added), Concat(gone));
    forall i | 0 <= i < |added|
      ensures var found := Find(ServiceNames(olds), news[i].name);
              HasBreaking(added[i]) <==> found.Some? && !MethodsKept(olds[found.value].methods, news[i].methods)
    {
      NewServiceDecides(olds, news[i]);
    }
    forall i | 0 <= i < |gone|
      ensures HasBreaking(gone[i]) <==> olds[i].name !in ServiceNames(news)
    {
      WhenBreaking(olds[i].name !in ServiceNames(news), Breaking, "SERVICE_REMOVED", [Text(olds[i].name)]);
    }
  }

  /** A Breaking finding is reported if and only if the new schema may not replace the old one. */
  lemma BreakingDecides(was: D.FileDescriptor, now: D.FileDescriptor)
    ensures HasBreaking(Findings(was, now)) <==> !FileCompatible(was, now)
  {
    hide HasBreaking, Messages, Enums, Services, When, CompatibleAll, EnumsKept, ServicesKept;
    var (a, b) := (PackageFindings(was, now), Messages(was.messageType, now.messageType, []));
    var (c, d) := (Enums(was.enumType, now.enumType, []), Services(was.service, now.service));
    WhenBreaking(Text(was.package) != Text(now.package), Breaking, "PACKAGE_CHANGED",
                 [Text(was.package), Text(now.package)]);
    MessagesDecide(was.messageType, now.messageType, []);
    EnumsDecide(was.enumType, now.enumType, []);
    ServicesDecide(was.service, now.service);
    Joined3(a, b, c);
    Joined(a + b + c, d);
  }
}
