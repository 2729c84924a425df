/** The loops of lint/lib.rs: each pushes onto the report exactly the findings of the comparison it stands for. */
module LintMethods {
  import opened Wrappers
  import opened WireBasics
  import opened Utf8
  import opened LintFindings
  import D = Descriptor

  class Report {
    var findings: seq<Finding>

    constructor ()
      ensures findings == []
    {
      findings := [];
    }

    method Push(severity: Severity, code: string, subject: seq<Str>)
      modifies this
      ensures findings == old(findings) + [Finding(severity, code, subject)]
    {
      findings := findings + [Finding(severity, code, subject)];
    }

    method PushIf(c: bool, severity: Severity, code: string, subject: seq<Str>)
      modifies this
      ensures findings == old(findings) + When(c, severity, code, subject)
    {
      if c { Push(severity, code, subject); }
    }

    /** `has_breaking` */
    method HasAnyBreaking() returns (b: bool)
      ensures b <==> HasBreaking(findings)
    {
      var i := 0;
      while i < |findings|
        invariant 0 <= i <= |findings| && !HasBreaking(findings[..i])
      {
        if findings[i].severity.Breaking? {
          assert findings[i] in findings;
          return true;
        }
        assert findings[..i + 1] == findings[..i] + [findings[i]];
        i := i + 1;
      }
      assert findings[..|findings|] == findings;
      b := false;
    }
  }

  lemma Grow(base: seq<Finding>, parts: seq<seq<Finding>>, i: nat)
    requires i < |parts|
    ensures base + Concat(parts[..i + 1]) == (base + Concat(parts[..i])) + parts[i]
  {
    assert parts[..i + 1][..i] == parts[..i];
    Assoc(base, Concat(parts[..i]), parts[i]);
  }

  lemma Whole(base: seq<Finding>, parts: seq<seq<Finding>>)
    ensures base + Concat(parts[..|parts|]) == base + Concat(parts)
    ensures base + Concat(parts[..0]) == base
  {
    assert parts[..|parts|] == parts;
  }

  /** The index `old_by_num`. */
  method IndexByNumber(fs: seq<D.FieldDescriptor>) returns (m: map<i32, D.FieldDescriptor>)
    ensures m == ByNumber(fs)
  {
    m := map[];
    var i := 0;
    while i < |fs|
      invariant 0 <= i <= |fs| && m == ByNumber(fs[..i])
    {
      m := m[Number(fs[i]) := fs[i]];
      assert fs[..i + 1][..i] == fs[..i];
      i := i + 1;
    }
    assert fs[..|fs|] == fs;
  }

  /** `check_field_compat` */
  method CheckFieldCompat(r: Report, path: seq<Str>, was: D.FieldDescriptor, now: D.FieldDescriptor)
    modifies r
    ensures r.findings == old(r.findings) + FieldCompat(path, was, now)
  {
    hide When, JsonFindings;
    ghost var base := r.findings;
    var at := path + [Text(now.name)];
    r.PushIf(was.ty != now.ty, Breaking, "FIELD_TYPE_CHANGED", at);
    r.PushIf(was.fieldLabel != now.fieldLabel, Breaking, "FIELD_LABEL_CHANGED", at);
    r.PushIf(was.typeName != now.typeName, Breaking, "FIELD_TYPE_NAME_CHANGED", at);
    CheckJsonName(r, was.jsonName, now.jsonName, at);
    r.PushIf(was.defaultValue != now.defaultValue, Warning, "DEFAULT_VALUE_CHANGED", at);
    Assoc5(base, When(was.ty != now.ty, Breaking, "FIELD_TYPE_CHANGED", at),
           When(was.fieldLabel != now.fieldLabel, Breaking, "FIELD_LABEL_CHANGED", at),
           When(was.typeName != now.typeName, Breaking, "FIELD_TYPE_NAME_CHANGED", at),
           JsonFindings(was.jsonName, now.jsonName, at),
           When(was.defaultValue != now.defaultValue, Warning, "DEFAULT_VALUE_CHANGED", at));
  }

  lemma Assoc5(a: seq<Finding>, b: seq<Finding>, c: seq<Finding>, d: seq<Finding>, e: seq<Finding>, f: seq<Finding>)
    ensures a + b + c + d + e + f == a + (b + c + d + e + f)
  {
    Assoc(a, b, c);
    Assoc(a, b + c, d);
    Assoc(a, b + c + d, e);
    Assoc(a, b + c + d + e, f);
  }

  method CheckJsonName(r: Report, was: Option<Str>, now: Option<Str>, at: seq<Str>)
    modifies r
    ensures r.findings == old(r.findings) + JsonFindings(was, now, at)
  {
    if was.Some? && now.Some? && was.value != now.value {
      r.Push(Breaking, "JSON_NAME_CHANGED", at);
    } else if was.Some? && now.None? {
      r.Push(Warning, "JSON_NAME_CHANGED", at);
    }
  }

  method CheckNewField(r: Report, olds: map<i32, D.FieldDescriptor>, f: D.FieldDescriptor, path: seq<Str>)
    modifies r
    ensures r.findings == old(r.findings) + NewField(olds, f, path)
  {
    if Number(f) !in olds {
      r.Push(Warning, "FIELD_ADDED", path + [Text(f.name)]);
    } else {
      var was := olds[Number(f)];
      if Text(was.name) != Text(f.name) {
        r.Push(Breaking, "FIELD_NUMBER_REUSED", path + [Text(was.name), Text(f.name)]);
      } else {
        CheckFieldCompat(r, path, was, f);
      }
    }
  }

  method CheckOldField(r: Report, now: D.MessageDescriptor, f: D.FieldDescriptor, path: seq<Str>)
    modifies r
    ensures r.findings == old(r.findings) + OldField(now, f, path)
  {
    if !HasNumber(now.field, Number(f)) {
      if NumberReserved(now, Number(f)) || Text(f.name) in now.reservedName {
        r.Push(Safe, "FIELD_RESERVED", path + [Text(f.name)]);
      } else {
        r.Push(Breaking, "FIELD_REMOVED", path + [Text(f.name)]);
      }
    }
  }

  method LintNewFields(r: Report, olds: map<i32, D.FieldDescriptor>, fs: seq<D.FieldDescriptor>, path: seq<Str>)
    modifies r
    ensures r.findings == old(r.findings) + Concat(NewFields(olds, fs, path))
  {
    hide Concat, When, HasBreaking;
    ghost var (base, parts) := (r.findings, NewFields(olds, fs, path));
    Whole(base, parts);
    var i := 0;
    while i < |fs|
      invariant 0 <= i <= |fs| && r.findings == base + Concat(parts[..i])
    {
      CheckNewField(r, olds, fs[i], path);
      Grow(base, parts, i);
      i := i + 1;
    }
  }

  method LintOldFields(r: Report, now: D.MessageDescriptor, fs: seq<D.FieldDescriptor>, path: seq<Str>)
    modifies r
    ensures r.findings == old(r.findings) + Concat(OldFields(now, fs, path))
  {
    hide Concat, When, HasBreaking;
    ghost var (base, parts) := (r.findings, OldFields(now, fs, path));
    Whole(base, parts);
    var i := 0;
    while i < |fs|
      invariant 0 <= i <= |fs| && r.findings == base + Concat(parts[..i])
    {
      CheckOldField(r, now, fs[i], path);
      Grow(base, parts, i);
      i := i + 1;
    }
  }

  /** `lint_message_fields` */
  method LintMessageFields(r: Report, was: D.MessageDescriptor, now: D.MessageDescriptor, path: seq<Str>)
    modifies r
    ensures r.findings == old(r.findings) + MessageFields(was, now, path)
  {
    hide Concat, ByNumber;
    ghost var base := r.findings;
    var olds := IndexByNumber(was.field);
    LintNewFields(r, olds, now.field, path);
    LintOldFields(r, now, was.field, path);
    Assoc(base, Concat(NewFields(olds, now.field, path)), Concat(OldFields(now, was.field, path)));
  }

  method CheckReservedRanges(r: Report, was: D.MessageDescriptor, now: D.MessageDescriptor, path: seq<Str>)
    modifies r
    ensures r.findings == old(r.findings) + Concat(ReservedRanges(was, now, path))
  {
    hide Concat, When, HasBreaking;
    ghost var (base, parts) := (r.findings, ReservedRanges(was, now, path));
    Whole(base, parts);
    var i := 0;
    while i < |was.reservedRange|
      invariant 0 <= i <= |was.reservedRange| && r.findings == base + Concat(parts[..i])
    {
      r.PushIf(!RangeKept(was.reservedRange[i], now.reservedRange), Breaking, "RESERVED_RANGE_SHRUNK", path);
      Grow(base, parts, i);
      i := i + 1;
    }
  }

  method CheckReservedNames(r: Report, was: D.MessageDescriptor, now: D.MessageDescriptor, path: seq<Str>)
    modifies r
    ensures r.findings == old(r.findings) + Concat(ReservedNames(was, now, path))
  {
    hide Concat, When, HasBreaking;
    ghost var (base, parts) := (r.findings, ReservedNames(was, now, path));
    Whole(base, parts);
    var i := 0;
    while i < |was.reservedName|
      invariant 0 <= i <= |was.reservedName| && r.findings == base + Concat(parts[..i])
    {
      r.PushIf(was.reservedName[i] !in now.reservedName, Breaking, "RESERVED_NAME_REMOVED", path + [was.reservedName[i]]);
      Grow(base, parts, i);
      i := i + 1;
    }
  }

  method CheckExtensionRanges(r: Report, was: D.MessageDescriptor, now: D.MessageDescriptor, path: seq<Str>)
    modifies r
    ensures r.findings == old(r.findings) + Concat(ExtensionRanges(was, now, path))
  {
    hide Concat, When, HasBreaking;
    ghost var (base, parts) := (r.findings, ExtensionRanges(was, now, path));
    Whole(base, parts);
    var i := 0;
    while i < |was.extensionRange|
      invariant 0 <= i <= |was.extensionRange| && r.findings == base + Concat(parts[..i])
    {
      r.PushIf(!ExtensionKept(was.extensionRange[i], now.extensionRange), Warning, "EXTENSION_RANGE_REMOVED", path);
      Grow(base, parts, i);
      i := i + 1;
    }
  }

  /** `check_reserved_and_extensions` */
  method CheckReservedAndExtensions(r: Report, was: D.MessageDescriptor, now: D.MessageDescriptor, path: seq<Str>)
    modifies r
    ensures r.findings == old(r.findings) + Reservations(was, now, path)
  {
    hide Concat;
    CheckReservedRanges(r, was, now, path);
    CheckReservedNames(r, was, now, path);
    CheckExtensionRanges(r, was, now, path);
  }

  method CheckValuesRemoved(r: Report, was: D.EnumDescriptor, now: D.EnumDescriptor, path: seq<Str>)
    modifies r
    ensures r.findings == old(r.findings) + Concat(ValuesRemoved(was, now, path))
  {
    hide Concat, When, HasBreaking;
    ghost var (base, parts) := (r.findings, ValuesRemoved(was, now, path));
    Whole(base, parts);
    var i := 0;
    while i < |was.value|
      invariant 0 <= i <= |was.value| && r.findings == base + Concat(parts[..i])
    {
      r.PushIf(!HasValue(now, was.value[i].number), Breaking, "ENUM_VALUE_REMOVED", path + [Text(was.value[i].name)]);
      Grow(base, parts, i);
      i := i + 1;
    }
  }

  method CheckValuesAdded(r: Report, was: D.EnumDescriptor, now: D.EnumDescriptor, path: seq<Str>)
    modifies r
    ensures r.findings == old(r.findings) + Concat(ValuesAdded(was, now, path))
  {
    hide Concat, When, HasBreaking;
    ghost var (base, parts) := (r.findings, ValuesAdded(was, now, path));
    Whole(base, parts);
    var i := 0;
    while i < |now.value|
      invariant 0 <= i <= |now.value| && r.findings == base + Concat(parts[..i])
    {
      r.PushIf(!HasValue(was, now.value[i].number), Warning, "ENUM_VALUE_ADDED", path + [Text(now.value[i].name)]);
      Grow(base, parts, i);
      i := i + 1;
    }
  }

  method LintNewEnum(r: Report, olds: seq<D.EnumDescriptor>, e: D.EnumDescriptor, path: seq<Str>)
    modifies r
    ensures r.findings == old(r.findings) + NewEnum(olds, e, path)
  {
    hide Concat;
    ghost var base := r.findings;
    var found, at := Find(EnumNames(olds), e.name), path + [Text(e.name)];
    if found.None? {
      r.Push(Safe, "ENUM_ADDED", at);
    } else {
      CheckValuesRemoved(r, olds[found.value], e, at);
      CheckValuesAdded(r, olds[found.value], e, at);
      Assoc(base, Concat(ValuesRemoved(olds[found.value], e, at)), Concat(ValuesAdded(olds[found.value], e, at)));
    }
  }

  method LintNewEnums(r: Report, olds: seq<D.EnumDescriptor>, news: seq<D.EnumDescriptor>, path: seq<Str>)
    modifies r
    ensures r.findings == old(r.findings) + Concat(NewEnums(olds, news, path))
  {
    hide Concat, When, HasBreaking;
    ghost var (base, parts) := (r.findings, NewEnums(olds, news, path));
    Whole(base, parts);
    var i := 0;
    while i < |news|
      invariant 0 <= i <= |news| && r.findings == base + Concat(parts[..i])
    {
      LintNewEnum(r, olds, news[i], path);
      Grow(base, parts, i);
      i := i + 1;
    }
  }

  method LintOldEnums(r: Report, olds: seq<D.EnumDescriptor>, news: seq<D.EnumDescriptor>, path: seq<Str>)
    modifies r
    ensures r.findings == old(r.findings) + Concat(OldEnums(olds, news, path))
  {
    hide Concat, When, HasBreaking;
    ghost var (base, parts) := (r.findings, OldEnums(olds, news, path));
    Whole(base, parts);
    var i := 0;
    while i < |olds|
      invariant 0 <= i <= |olds| && r.findings == base + Concat(parts[..i])
    {
      r.PushIf(olds[i].name !in EnumNames(news), Breaking, "ENUM_REMOVED", path + [Text(olds[i].name)]);
      Grow(base, parts, i);
      i := i + 1;
    }
  }

  /** `lint_enums` */
  method LintEnums(r: Report, olds: seq<D.EnumDescriptor>, news: seq<D.EnumDescriptor>, path: seq<Str>)
    modifies r
    ensures r.findings == old(r.findings) + Enums(olds, news, path)
  {
    hide Concat;
    ghost var base := r.findings;
    LintNewEnums(r, olds, news, path);
    LintOldEnums(r, olds, news, path);
    Assoc(base, Concat(NewEnums(olds, news, path)), Concat(OldEnums(olds, news, path)));
  }

  method LintNewMessage(r: Report, olds: seq<D.MessageDescriptor>, m: D.MessageDescriptor, path: seq<Str>)
    modifies r
    ensures r.findings == old(r.findings) + NewMessage(olds, m, path)
    decreases m, 2
  {
    var found, at := Find(MessageNames(olds), m.name), path + [Text(m.name)];
    if found.None? {
      r.Push(Safe, "MESSAGE_ADDED", at);
    } else {
      LintMessage(r, olds[found.value], m, at);
    }
  }

  method LintMessage(r: Report, was: D.MessageDescriptor, now: D.MessageDescriptor, at: seq<Str>)
    modifies r
    ensures r.findings == old(r.findings) + Compared(was, now, at)
    decreases now, 1
  {
    hide MessageFields, Reservations, Concat, NewMessages, OldMessages, Enums;
    LintMessageFields(r, was, now, at);
    CheckReservedAndExtensions(r, was, now, at);
    LintNewMessages(r, was.nestedType, now.nestedType, at);
    LintOldMessages(r, was.nestedType, now.nestedType, at);
    LintEnums(r, was.enumType, now.enumType, at);
  }

  method LintNewMessages(r: Report, olds: seq<D.MessageDescriptor>, news: seq<D.MessageDescriptor>, path: seq<Str>)
    modifies r
    ensures r.findings == old(r.findings) + Concat(NewMessages(olds, news, path))
    decreases news, 3
  {
    hide Concat, NewMessage;
    ghost var (base, parts) := (r.findings, NewMessages(olds, news, path));
    Whole(base, parts);
    var i := 0;
    while i < |news|
      invariant 0 <= i <= |news| && r.findings == base + Concat(parts[..i])
    {
      LintNewMessage(r, olds, news[i], path);
      Grow(base, parts, i);
      i := i + 1;
    }
  }

  method LintOldMessages(r: Report, olds: seq<D.MessageDescriptor>, news: seq<D.MessageDescriptor>, path: seq<Str>)
    modifies r
    ensures r.findings == old(r.findings) + Concat(OldMessages(olds, news, path))
  {
    hide Concat, When, HasBreaking;
    ghost var (base, parts) := (r.findings, OldMessages(olds, news, path));
    Whole(base, parts);
    var i := 0;
    while i < |olds|
      invariant 0 <= i <= |olds| && r.findings == base + Concat(parts[..i])
    {
      r.PushIf(olds[i].name !in MessageNames(news), Breaking, "MESSAGE_REMOVED", path + [Text(olds[i].name)]);
      Grow(base, parts, i);
      i := i + 1;
    }
  }

  /** `lint_messages` */
  method LintMessages(r: Report, olds: seq<D.MessageDescriptor>, news: seq<D.MessageDescriptor>, path: seq<Str>)
    modifies r
    ensures r.findings == old(r.findings) + Messages(olds, news, path)
  {
    hide Concat;
    ghost var base := r.findings;
    LintNewMessages(r, olds, news, path);
    LintOldMessages(r, olds, news, path);
    Assoc(base, Concat(NewMessages(olds, news, path)), Concat(OldMessages(olds, news, path)));
  }

  /** `check_method_compat` */
  method CheckMethodCompat(r: Report, path: seq<Str>, was: D.MethodDescriptor, now: D.MethodDescriptor)
    modifies r
    ensures r.findings == old(r.findings) + MethodCompat(path, was, now)
  {
    hide When;
    var at := path + [Text(now.name)];
    r.PushIf(was.inputType != now.inputType, Breaking, "METHOD_INPUT_CHANGED", at);
    r.PushIf(was.outputType != now.outputType, Breaking, "METHOD_OUTPUT_CHANGED", at);
    r.PushIf(was.clientStreaming != now.clientStreaming || was.serverStreaming != now.serverStreaming, Breaking,
             "METHOD_STREAMING_CHANGED", at);
  }

  method LintNewMethod(r: Report, olds: seq<D.MethodDescriptor>, m: D.MethodDescriptor, path: seq<Str>)
    modifies r
    ensures r.findings == old(r.findings) + NewMethod(olds, m, path)
  {
    var found := Find(MethodNames(olds), m.name);
    if found.None? {
      r.Push(Warning, "METHOD_ADDED", path + [Text(m.name)]);
    } else {
      CheckMethodCompat(r, path, olds[found.value], m);
    }
  }

  method LintNewMethods(r: Report, olds: seq<D.MethodDescriptor>, news: seq<D.MethodDescriptor>, path: seq<Str>)
    modifies r
    ensures r.findings == old(r.findings) + Concat(NewMethods(olds, news, path))
  {
    hide Concat, When, HasBreaking;
    ghost var (base, parts) := (r.findings, NewMethods(olds, news, path));
    Whole(base, parts);
    var i := 0;
    while i < |news|
      invariant 0 <= i <= |news| && r.findings == base + Concat(parts[..i])
    {
      LintNewMethod(r, olds, news[i], path);
      Grow(base, parts, i);
      i := i + 1;
    }
  }

  method LintOldMethods(r: Report, olds: seq<D.MethodDescriptor>, news: seq<D.MethodDescriptor>, path: seq<Str>)
    modifies r
    ensures r.findings == old(r.findings) + Concat(OldMethods(olds, news, path))
  {
    hide Concat, When, HasBreaking;
    ghost var (base, parts) := (r.findings, OldMethods(olds, news, path));
    Whole(base, parts);
    var i := 0;
    while i < |olds|
      invariant 0 <= i <= |olds| && r.findings == base + Concat(parts[..i])
    {
      r.PushIf(olds[i].name !in MethodNames(news), Breaking, "METHOD_REMOVED", path + [Text(olds[i].name)]);
      Grow(base, parts, i);
      i := i + 1;
    }
  }

  /** `lint_methods` */
  method LintMethods(r: Report, olds: seq<D.MethodDescriptor>, news: seq<D.MethodDescriptor>, path: seq<Str>)
    modifies r
    ensures r.findings == old(r.findings) + Methods(olds, news, path)
  {
    hide Concat;
    ghost var base := r.findings;
    LintNewMethods(r, olds, news, path);
    LintOldMethods(r, olds, news, path);
    Assoc(base, Concat(NewMethods(olds, news, path)), Concat(OldMethods(olds, news, path)));
  }

  method LintNewService(r: Report, olds: seq<D.ServiceDescriptor>, s: D.ServiceDescriptor)
    modifies r
    ensures r.findings == old(r.findings) + NewService(olds, s)
  {
    var found := Find(ServiceNames(olds), s.name);
    if found.None? {
      r.Push(Safe, "SERVICE_ADDED", [Text(s.name)]);
    } else {
      LintMethods(r, olds[found.value].methods, s.methods, [Text(s.name)]);
    }
  }

  method LintNewServices(r: Report, olds: seq<D.ServiceDescriptor>, news: seq<D.ServiceDescriptor>)
    modifies r
    ensures r.findings == old(r.findings) + Concat(NewServices(olds, news))
  {
    hide Concat, When, HasBreaking;
    ghost var (base, parts) := (r.findings, NewServices(olds, news));
    Whole(base, parts);
    var i := 0;
    while i < |news|
      invariant 0 <= i <= |news| && r.findings == base + Concat(parts[..i])
    {
      LintNewService(r, olds, news[i]);
      Grow(base, parts, i);
      i := i + 1;
    }
  }

  method LintOldServices(r: Report, olds: seq<D.ServiceDescriptor>, news: seq<D.ServiceDescriptor>)
    modifies r
    ensures r.findings == old(r.findings) + Concat(OldServices(olds, news))
  {
    hide Concat, When, HasBreaking;
    ghost var (base, parts) := (r.findings, OldServices(olds, news));
    Whole(base, parts);
    var i := 0;
    while i < |olds|
      invariant 0 <= i <= |olds| && r.findings == base + Concat(parts[..i])
    {
      r.PushIf(olds[i].name !in ServiceNames(news), Breaking, "SERVICE_REMOVED", [Text(olds[i].name)]);
      Grow(base, parts, i);
      i := i + 1;
    }
  }

  /** `lint_services` */
  method LintServices(r: Report, olds: seq<D.ServiceDescriptor>, news: seq<D.ServiceDescriptor>)
    modifies r
    ensures r.findings == old(r.findings) + Services(olds, news)
  {
    hide Concat;
    ghost var base := r.findings;
    LintNewServices(r, olds, news);
    LintOldServices(r, olds, news);
    Assoc(base, Concat(NewServices(olds, news)), Concat(OldServices(olds, news)));
  }

  /** `lint` */
  method Lint(was: D.FileDescriptor, now: D.FileDescriptor) returns (r: Report)
    ensures fresh(r) && r.findings == Findings(was, now)
  {
    hide Messages, Enums, Services;
    r := new Report();
    if Text(was.package) != Text(now.package) {
      r.Push(Breaking, "PACKAGE_CHANGED", [Text(was.package), Text(now.package)]);
    }
    LintMessages(r, was.messageType, now.messageType, []);
    LintEnums(r, was.enumType, now.enumType, []);
    LintServices(r, was.service, now.service);
  }
}
