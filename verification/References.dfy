/** Resolving the type references of a file (compiler/pipeline.rs). */
module References {
  import opened Wrappers
  import opened WireBasics
  import opened Utf8
  import opened TypeNames
  import opened SymbolTable
  import D = Descriptor

  /** An "unknown type" error: the name and the field or method that refers to it. */
  datatype Unknown = Unknown(name: Str, at: Str)

  predicate IsReference(f: D.FieldDescriptor) {
    f.typeName.Some? && f.ty.Some? && (f.ty.value.MessageType? || f.ty.value.Enum? || f.ty.value.Group?)
  }

  // ------------------------------------------------------------------ what is to be computed

  function ResolvedName(t: Option<Str>, pkg: Str, visible: set<Str>): Option<Str> {
    if t.None? then None
    else
      var r := Resolve(t.value, pkg, visible);
      if r.Some? then r else t
  }

  function NameErrors(t: Option<Str>, at: Option<Str>, pkg: Str, visible: set<Str>): seq<Unknown> {
    if t.Some? && Resolve(t.value, pkg, visible).None? then [Unknown(t.value, Text(at))] else []
  }

  function ResolvedField(f: D.FieldDescriptor, pkg: Str, visible: set<Str>): D.FieldDescriptor {
    if IsReference(f) then f.(typeName := ResolvedName(f.typeName, pkg, visible)) else f
  }

  function FieldErrors(f: D.FieldDescriptor, pkg: Str, visible: set<Str>): seq<Unknown> {
    if IsReference(f) then NameErrors(f.typeName, f.name, pkg, visible) else []
  }

  function ResolvedFields(fs: seq<D.FieldDescriptor>, pkg: Str, visible: set<Str>): (r: seq<D.FieldDescriptor>)
    ensures |r| == |fs| && forall i :: 0 <= i < |fs| ==> r[i] == ResolvedField(fs[i], pkg, visible)
  {
    seq(|fs|, i requires 0 <= i < |fs| => ResolvedField(fs[i], pkg, visible))
  }

  function FieldsErrors(fs: seq<D.FieldDescriptor>, pkg: Str, visible: set<Str>): seq<Unknown> {
    if |fs| == 0 then []
    else FieldsErrors(fs[..|fs| - 1], pkg, visible) + FieldErrors(fs[|fs| - 1], pkg, visible)
  }

  /** A message with its references resolved: its fields in the scope around it, its nested messages in its own. */
  function Resolved(m: D.MessageDescriptor, prefix: Str, visible: set<Str>): (r: D.MessageDescriptor)
    ensures r.name == m.name
    decreases m, 0
  {
    m.(field := ResolvedFields(m.field, prefix, visible),
       nestedType := ResolvedAll(m.nestedType, Qualify(prefix, Text(m.name)), visible))
  }

  function ResolvedAll(ms: seq<D.MessageDescriptor>, prefix: Str, visible: set<Str>): (r: seq<D.MessageDescriptor>)
    ensures |r| == |ms|
    decreases ms, 1
  {
    if |ms| == 0 then []
    else ResolvedAll(ms[..|ms| - 1], prefix, visible) + [Resolved(ms[|ms| - 1], prefix, visible)]
  }

  function Errors(m: D.MessageDescriptor, prefix: Str, visible: set<Str>): seq<Unknown>
    decreases m, 0
  {
    FieldsErrors(m.field, prefix, visible) + ErrorsAll(m.nestedType, Qualify(prefix, Text(m.name)), visible)
  }

  function ErrorsAll(ms: seq<D.MessageDescriptor>, prefix: Str, visible: set<Str>): seq<Unknown>
    decreases ms, 1
  {
    if |ms| == 0 then []
    else ErrorsAll(ms[..|ms| - 1], prefix, visible) + Errors(ms[|ms| - 1], prefix, visible)
  }

  function ResolvedMethod(m: D.MethodDescriptor, pkg: Str, visible: set<Str>): D.MethodDescriptor {
    m.(inputType := ResolvedName(m.inputType, pkg, visible), outputType := ResolvedName(m.outputType, pkg, visible))
  }

  function MethodErrors(m: D.MethodDescriptor, pkg: Str, visible: set<Str>): seq<Unknown> {
    NameErrors(m.inputType, m.name, pkg, visible) + NameErrors(m.outputType, m.name, pkg, visible)
  }

  // ------------------------------------------------------------- what a resolved file promises

  /** The name is absolute and names a visible symbol. */
  predicate Settled(t: Option<Str>, visible: set<Str>) {
    t.Some? ==> Absolute(t.value) && t.value in visible
  }

  /** Every reference of the message and of everything nested in it is settled. */
  ghost predicate Closed(m: D.MessageDescriptor, visible: set<Str>)
    decreases m
  {
    && (forall i :: 0 <= i < |m.field| && IsReference(m.field[i]) ==> Settled(m.field[i].typeName, visible))
    && (forall i :: 0 <= i < |m.nestedType| ==> Closed(m.nestedType[i], visible))
  }

  lemma NameSettled(t: Option<Str>, at: Option<Str>, pkg: Str, visible: set<Str>)
    ensures NameErrors(t, at, pkg, visible) == [] <==> Settled(ResolvedName(t, pkg, visible), visible)
  {
    if t.Some? {
      ResolvedIsVisible(t.value, pkg, visible);
      assert Absolute(t.value) && t.value in visible ==> Resolve(t.value, pkg, visible) == t;
    }
  }

  lemma {:induction false} FieldsSettled(fs: seq<D.FieldDescriptor>, pkg: Str, visible: set<Str>)
    ensures FieldsErrors(fs, pkg, visible) == [] <==>
            forall i :: 0 <= i < |fs| && IsReference(fs[i]) ==>
              Settled(ResolvedFields(fs, pkg, visible)[i].typeName, visible)
  {
    if |fs| != 0 {
      var last := |fs| - 1;
      hide Settled, NameErrors, IsUtf8, Resolve, ResolvedName;
      FieldsSettled(fs[..last], pkg, visible);
      NameSettled(fs[last].typeName, fs[last].name, pkg, visible);
      assert forall i :: 0 <= i < last ==> fs[..last][i] == fs[i];
    }
  }

  lemma ReferenceStays(f: D.FieldDescriptor, pkg: Str, visible: set<Str>)
    ensures IsReference(ResolvedField(f, pkg, visible)) <==> IsReference(f)
  {
  }

  lemma {:induction false} ResolvedAllAt(ms: seq<D.MessageDescriptor>, i: nat, prefix: Str, visible: set<Str>)
    requires i < |ms|
    ensures ResolvedAll(ms, prefix, visible)[i] == Resolved(ms[i], prefix, visible)
  {
    if i < |ms| - 1 { ResolvedAllAt(ms[..|ms| - 1], i, prefix, visible); }
  }

  /** Resolving reports nothing if and only if every reference at every depth ends up absolute and visible. */
  lemma {:induction false} ErrorFreeIsClosed(m: D.MessageDescriptor, prefix: Str, visible: set<Str>)
    ensures Errors(m, prefix, visible) == [] <==> Closed(Resolved(m, prefix, visible), visible)
    decreases m, 0
  {
    hide FieldsErrors, Settled, IsUtf8, Resolve;
    var r, self := Resolved(m, prefix, visible), Qualify(prefix, Text(m.name));
    FieldsSettled(m.field, prefix, visible);
    forall i | 0 <= i < |m.field|
      ensures IsReference(r.field[i]) <==> IsReference(m.field[i])
    {
      ReferenceStays(m.field[i], prefix, visible);
    }
    ErrorFreeAll(m.nestedType, self, visible);
  }

  ghost predicate ClosedAll(ms: seq<D.MessageDescriptor>, visible: set<Str>) {
    forall i :: 0 <= i < |ms| ==> Closed(ms[i], visible)
  }

  lemma {:induction false} ErrorFreeAll(ms: seq<D.MessageDescriptor>, prefix: Str, visible: set<Str>)
    ensures ErrorsAll(ms, prefix, visible) == [] <==> ClosedAll(ResolvedAll(ms, prefix, visible), visible)
    decreases ms, 1
  {
    hide Closed, Resolved, Errors, IsUtf8, ClosedAll, Resolve;
    ClosedNone(visible);
    if |ms| != 0 {
      var last := |ms| - 1;
      ErrorFreeAll(ms[..last], prefix, visible);
      ErrorFreeIsClosed(ms[last], prefix, visible);
      ClosedAllSnoc(ResolvedAll(ms[..last], prefix, visible), Resolved(ms[last], prefix, visible), visible);
    }
  }

  lemma ClosedNone(visible: set<Str>)
    ensures ClosedAll([], visible)
  {
  }

  lemma ClosedAllSnoc(front: seq<D.MessageDescriptor>, m: D.MessageDescriptor, visible: set<Str>)
    ensures ClosedAll(front + [m], visible) <==> ClosedAll(front, visible) && Closed(m, visible)
  {
    hide Closed, IsUtf8;
    var all := front + [m];
    assert all[|front|] == m;
    assert forall i :: 0 <= i < |front| ==> all[i] == front[i];
  }

  lemma FieldTwice(f: D.FieldDescriptor, pkg: Str, visible: set<Str>)
    ensures ResolvedField(ResolvedField(f, pkg, visible), pkg, visible) == ResolvedField(f, pkg, visible)
    ensures FieldErrors(ResolvedField(f, pkg, visible), pkg, visible) == FieldErrors(f, pkg, visible)
  {
    if IsReference(f) && Resolve(f.typeName.value, pkg, visible).Some? {
      ResolveTwice(f.typeName.value, pkg, visible, pkg);
    }
  }

  lemma {:induction false} FieldsTwice(fs: seq<D.FieldDescriptor>, pkg: Str, visible: set<Str>)
    ensures ResolvedFields(ResolvedFields(fs, pkg, visible), pkg, visible) == ResolvedFields(fs, pkg, visible)
    ensures FieldsErrors(ResolvedFields(fs, pkg, visible), pkg, visible) == FieldsErrors(fs, pkg, visible)
  {
    hide ResolvedField, FieldErrors, IsUtf8;
    var r := ResolvedFields(fs, pkg, visible);
    forall i | 0 <= i < |fs|
      ensures ResolvedField(r[i], pkg, visible) == r[i]
    {
      FieldTwice(fs[i], pkg, visible);
    }
    if |fs| != 0 {
      var last := |fs| - 1;
      FieldsTwice(fs[..last], pkg, visible);
      FieldTwice(fs[last], pkg, visible);
      assert r[..last] == ResolvedFields(fs[..last], pkg, visible);
    }
  }

  /** A second pass changes nothing and reports the same errors, so none after an error-free first one. */
  lemma {:induction false} SecondPass(m: D.MessageDescriptor, prefix: Str, visible: set<Str>)
    ensures Resolved(Resolved(m, prefix, visible), prefix, visible) == Resolved(m, prefix, visible)
    ensures Errors(Resolved(m, prefix, visible), prefix, visible) == Errors(m, prefix, visible)
    decreases m, 0
  {
    hide FieldsErrors, ResolvedField, IsUtf8;
    FieldsTwice(m.field, prefix, visible);
    SecondPassAll(m.nestedType, Qualify(prefix, Text(m.name)), visible);
  }

  lemma {:induction false} SecondPassAll(ms: seq<D.MessageDescriptor>, prefix: Str, visible: set<Str>)
    ensures ResolvedAll(ResolvedAll(ms, prefix, visible), prefix, visible) == ResolvedAll(ms, prefix, visible)
    ensures ErrorsAll(ResolvedAll(ms, prefix, visible), prefix, visible) == ErrorsAll(ms, prefix, visible)
    decreases ms, 1
  {
    if |ms| != 0 {
      var last := |ms| - 1;
      SecondPassAll(ms[..last], prefix, visible);
      SecondPass(ms[last], prefix, visible);
      hide Resolved, Errors, IsUtf8;
      assert ResolvedAll(ms, prefix, visible)[..last] == ResolvedAll(ms[..last], prefix, visible);
    }
  }

  /** Resolving renames nothing: the symbols defined stay the same. */
  lemma {:induction false} SymbolsStay(m: D.MessageDescriptor, prefix: Str, visible: set<Str>, p: Str)
    ensures MessageSymbols(Resolved(m, prefix, visible), p) == MessageSymbols(m, p)
    decreases m, 0
  {
    hide IsUtf8;
    SymbolsStayAll(m.nestedType, Qualify(prefix, Text(m.name)), visible, Qualify(p, Text(m.name)));
  }

  lemma {:induction false} SymbolsStayAll(ms: seq<D.MessageDescriptor>, prefix: Str, visible: set<Str>, p: Str)
    ensures MessagesSymbols(ResolvedAll(ms, prefix, visible), p) == MessagesSymbols(ms, p)
    decreases ms, 1
  {
    if |ms| != 0 {
      var last := |ms| - 1;
      SymbolsStayAll(ms[..last], prefix, visible, p);
      SymbolsStay(ms[last], prefix, visible, p);
      hide Resolved, MessageSymbols, IsUtf8;
      assert ResolvedAll(ms, prefix, visible)[..last] == ResolvedAll(ms[..last], prefix, visible);
    }
  }

  /** Nothing but the names in references may differ. */
  ghost predicate SameButReferences(m: D.MessageDescriptor, r: D.MessageDescriptor)
    decreases m
  {
    && r == m.(field := r.field, nestedType := r.nestedType)
    && |r.field| == |m.field| && |r.nestedType| == |m.nestedType|
    && (forall i :: 0 <= i < |m.field| ==>
          if IsReference(m.field[i]) then r.field[i].typeName.Some? && r.field[i] == m.field[i].(typeName := r.field[i].typeName)
          else r.field[i] == m.field[i])
    && (forall i :: 0 <= i < |m.nestedType| ==> SameButReferences(m.nestedType[i], r.nestedType[i]))
  }

  /** At every depth fields that are not references, and everything else about a message, stay as they are. */
  lemma {:induction false} OnlyReferencesChange(m: D.MessageDescriptor, prefix: Str, visible: set<Str>)
    ensures SameButReferences(m, Resolved(m, prefix, visible))
    decreases m
  {
    hide IsUtf8, Resolve;
    var self := Qualify(prefix, Text(m.name));
    forall i | 0 <= i < |m.nestedType|
      ensures SameButReferences(m.nestedType[i], Resolved(m, prefix, visible).nestedType[i])
    {
      ResolvedAllAt(m.nestedType, i, self, visible);
      OnlyReferencesChange(m.nestedType[i], self, visible);
    }
  }

  // ------------------------------------------------------------------------- services and files

  function ResolvedMethods(ms: seq<D.MethodDescriptor>, pkg: Str, visible: set<Str>): (r: seq<D.MethodDescriptor>)
    ensures |r| == |ms| && forall i :: 0 <= i < |ms| ==> r[i] == ResolvedMethod(ms[i], pkg, visible)
  {
    seq(|ms|, i requires 0 <= i < |ms| => ResolvedMethod(ms[i], pkg, visible))
  }

  function MethodsErrors(ms: seq<D.MethodDescriptor>, pkg: Str, visible: set<Str>): seq<Unknown> {
    if |ms| == 0 then []
    else MethodsErrors(ms[..|ms| - 1], pkg, visible) + MethodErrors(ms[|ms| - 1], pkg, visible)
  }

  function ResolvedService(s: D.ServiceDescriptor, pkg: Str, visible: set<Str>): D.ServiceDescriptor {
    s.(methods := ResolvedMethods(s.methods, pkg, visible))
  }

  function ResolvedServices(ss: seq<D.ServiceDescriptor>, pkg: Str, visible: set<Str>): (r: seq<D.ServiceDescriptor>)
    ensures |r| == |ss| && forall i :: 0 <= i < |ss| ==> r[i] == ResolvedService(ss[i], pkg, visible)
  {
    seq(|ss|, i requires 0 <= i < |ss| => ResolvedService(ss[i], pkg, visible))
  }

  function ServicesErrors(ss: seq<D.ServiceDescriptor>, pkg: Str, visible: set<Str>): seq<Unknown> {
    if |ss| == 0 then []
    else ServicesErrors(ss[..|ss| - 1], pkg, visible) + MethodsErrors(ss[|ss| - 1].methods, pkg, visible)
  }

  /** A file with every reference of its messages and methods resolved, each in its own scope. */
  function ResolvedFile(fd: D.FileDescriptor, visible: set<Str>): D.FileDescriptor {
    fd.(messageType := ResolvedAll(fd.messageType, Text(fd.package), visible),
        service := ResolvedServices(fd.service, Text(fd.package), visible))
  }

  function FileErrors(fd: D.FileDescriptor, visible: set<Str>): seq<Unknown> {
    ErrorsAll(fd.messageType, Text(fd.package), visible) + ServicesErrors(fd.service, Text(fd.package), visible)
  }

  predicate MethodSettled(m: D.MethodDescriptor, visible: set<Str>) {
    Settled(m.inputType, visible) && Settled(m.outputType, visible)
  }

  predicate AllMethodsSettled(ms: seq<D.MethodDescriptor>, visible: set<Str>) {
    forall i :: 0 <= i < |ms| ==> MethodSettled(ms[i], visible)
  }

  predicate ServicesSettled(ss: seq<D.ServiceDescriptor>, visible: set<Str>) {
    forall i :: 0 <= i < |ss| ==> AllMethodsSettled(ss[i].methods, visible)
  }

  /** Every reference of every message, at every depth, and of every method is absolute and visible. */
  ghost predicate FileClosed(fd: D.FileDescriptor, visible: set<Str>) {
    ClosedAll(fd.messageType, visible) && ServicesSettled(fd.service, visible)
  }

  lemma MethodIsSettled(m: D.MethodDescriptor, pkg: Str, visible: set<Str>)
    ensures MethodErrors(m, pkg, visible) == [] <==> MethodSettled(ResolvedMethod(m, pkg, visible), visible)
  {
    hide NameErrors, Settled, ResolvedName, IsUtf8;
    NameSettled(m.inputType, m.name, pkg, visible);
    NameSettled(m.outputType, m.name, pkg, visible);
  }

  lemma MethodsSnoc(front: seq<D.MethodDescriptor>, m: D.MethodDescriptor, visible: set<Str>)
    ensures AllMethodsSettled(front + [m], visible) <==> AllMethodsSettled(front, visible) && MethodSettled(m, visible)
    ensures AllMethodsSettled([], visible)
  {
    hide MethodSettled, IsUtf8;
    var all := front + [m];
    assert all[|front|] == m;
    assert forall i :: 0 <= i < |front| ==> all[i] == front[i];
  }

  lemma ServicesSnoc(front: seq<D.ServiceDescriptor>, s: D.ServiceDescriptor, visible: set<Str>)
    ensures ServicesSettled(front + [s], visible) <==>
            ServicesSettled(front, visible) && AllMethodsSettled(s.methods, visible)
    ensures ServicesSettled([], visible)
  {
    hide AllMethodsSettled, IsUtf8;
    var all := front + [s];
    assert all[|front|] == s;
    assert forall i :: 0 <= i < |front| ==> all[i] == front[i];
  }

  lemma ResolvedMethodsSnoc(ms: seq<D.MethodDescriptor>, pkg: Str, visible: set<Str>)
    requires |ms| > 0
    ensures ResolvedMethods(ms, pkg, visible)
            == ResolvedMethods(ms[..|ms| - 1], pkg, visible) + [ResolvedMethod(ms[|ms| - 1], pkg, visible)]
  {
    hide ResolvedMethod, IsUtf8;
  }

  lemma ResolvedServicesSnoc(ss: seq<D.ServiceDescriptor>, pkg: Str, visible: set<Str>)
    requires |ss| > 0
    ensures ResolvedServices(ss, pkg, visible)
            == ResolvedServices(ss[..|ss| - 1], pkg, visible) + [ResolvedService(ss[|ss| - 1], pkg, visible)]
  {
    hide ResolvedService, IsUtf8;
  }

  lemma {:induction false} MethodsSettled(ms: seq<D.MethodDescriptor>, pkg: Str, visible: set<Str>)
    ensures MethodsErrors(ms, pkg, visible) == [] <==> AllMethodsSettled(ResolvedMethods(ms, pkg, visible), visible)
  {
    hide MethodErrors, MethodSettled, ResolvedMethod, ResolvedMethods, AllMethodsSettled, IsUtf8;
    if |ms| == 0 {
      assert ResolvedMethods(ms, pkg, visible) == [];
      MethodsSnoc([], D.MethodDescriptor(None, None, None, None, None, None), visible);
    } else {
      var (front, last) := (ms[..|ms| - 1], ms[|ms| - 1]);
      MethodsSettled(front, pkg, visible);
      MethodIsSettled(last, pkg, visible);
      ResolvedMethodsSnoc(ms, pkg, visible);
      MethodsSnoc(ResolvedMethods(front, pkg, visible), ResolvedMethod(last, pkg, visible), visible);
    }
  }

  lemma {:induction false} ServicesAreSettled(ss: seq<D.ServiceDescriptor>, pkg: Str, visible: set<Str>)
    ensures ServicesErrors(ss, pkg, visible) == [] <==> ServicesSettled(ResolvedServices(ss, pkg, visible), visible)
  {
    hide MethodsErrors, AllMethodsSettled, ResolvedMethods, ResolvedServices, ServicesSettled, IsUtf8;
    if |ss| == 0 {
      assert ResolvedServices(ss, pkg, visible) == [];
      ServicesSnoc([], D.ServiceDescriptor(None, [], None), visible);
    } else {
      var (front, last) := (ss[..|ss| - 1], ss[|ss| - 1]);
      ServicesAreSettled(front, pkg, visible);
      MethodsSettled(last.methods, pkg, visible);
      ResolvedServicesSnoc(ss, pkg, visible);
      ServicesSnoc(ResolvedServices(front, pkg, visible), ResolvedService(last, pkg, visible), visible);
    }
  }

  /** A file is reported about if and only if some reference in a message or a method stays open. */
  lemma FileErrorFree(fd: D.FileDescriptor, visible: set<Str>)
    ensures FileErrors(fd, visible) == [] <==> FileClosed(ResolvedFile(fd, visible), visible)
  {
    hide ErrorsAll, ServicesErrors, ClosedAll, ServicesSettled, ResolvedAll, ResolvedServices, IsUtf8;
    ErrorFreeAll(fd.messageType, Text(fd.package), visible);
    ServicesAreSettled(fd.service, Text(fd.package), visible);
  }

  lemma NameTwice(t: Option<Str>, at: Option<Str>, pkg: Str, visible: set<Str>)
    ensures ResolvedName(ResolvedName(t, pkg, visible), pkg, visible) == ResolvedName(t, pkg, visible)
    ensures NameErrors(ResolvedName(t, pkg, visible), at, pkg, visible) == NameErrors(t, at, pkg, visible)
  {
    if t.Some? && Resolve(t.value, pkg, visible).Some? { ResolveTwice(t.value, pkg, visible, pkg); }
  }

  lemma MethodTwice(m: D.MethodDescriptor, pkg: Str, visible: set<Str>)
    ensures ResolvedMethod(ResolvedMethod(m, pkg, visible), pkg, visible) == ResolvedMethod(m, pkg, visible)
    ensures MethodErrors(ResolvedMethod(m, pkg, visible), pkg, visible) == MethodErrors(m, pkg, visible)
  {
    hide ResolvedName, NameErrors, IsUtf8;
    NameTwice(m.inputType, m.name, pkg, visible);
    NameTwice(m.outputType, m.name, pkg, visible);
  }

  lemma {:induction false} MethodsTwice(ms: seq<D.MethodDescriptor>, pkg: Str, visible: set<Str>)
    ensures ResolvedMethods(ResolvedMethods(ms, pkg, visible), pkg, visible) == ResolvedMethods(ms, pkg, visible)
    ensures MethodsErrors(ResolvedMethods(ms, pkg, visible), pkg, visible) == MethodsErrors(ms, pkg, visible)
  {
    hide ResolvedMethod, MethodErrors, IsUtf8;
    var r := ResolvedMethods(ms, pkg, visible);
    forall i | 0 <= i < |ms|
      ensures ResolvedMethod(r[i], pkg, visible) == r[i]
    {
      MethodTwice(ms[i], pkg, visible);
    }
    if |ms| != 0 {
      var last := |ms| - 1;
      MethodsTwice(ms[..last], pkg, visible);
      MethodTwice(ms[last], pkg, visible);
      assert r[..last] == ResolvedMethods(ms[..last], pkg, visible);
    }
  }

  lemma {:induction false} ServicesTwice(ss: seq<D.ServiceDescriptor>, pkg: Str, visible: set<Str>)
    ensures ResolvedServices(ResolvedServices(ss, pkg, visible), pkg, visible) == ResolvedServices(ss, pkg, visible)
    ensures ServicesErrors(ResolvedServices(ss, pkg, visible), pkg, visible) == ServicesErrors(ss, pkg, visible)
  {
    hide ResolvedMethods, MethodsErrors, IsUtf8;
    var r := ResolvedServices(ss, pkg, visible);
    forall i | 0 <= i < |ss|
      ensures ResolvedService(r[i], pkg, visible) == r[i]
    {
      MethodsTwice(ss[i].methods, pkg, visible);
    }
    if |ss| != 0 {
      var last := |ss| - 1;
      ServicesTwice(ss[..last], pkg, visible);
      MethodsTwice(ss[last].methods, pkg, visible);
      assert r[..last] == ResolvedServices(ss[..last], pkg, visible);
    }
  }

  /** A second pass over a file changes nothing and reports the same errors. */
  lemma FileTwice(fd: D.FileDescriptor, visible: set<Str>)
    ensures ResolvedFile(ResolvedFile(fd, visible), visible) == ResolvedFile(fd, visible)
    ensures FileErrors(ResolvedFile(fd, visible), visible) == FileErrors(fd, visible)
  {
    hide ErrorsAll, ServicesErrors, ResolvedAll, ResolvedServices, IsUtf8;
    SecondPassAll(fd.messageType, Text(fd.package), visible);
    ServicesTwice(fd.service, Text(fd.package), visible);
  }

  lemma FileSymbolsStay(fd: D.FileDescriptor, visible: set<Str>)
    ensures FileSymbols(ResolvedFile(fd, visible)) == FileSymbols(fd)
  {
    hide ResolvedAll, ResolvedServices, IsUtf8;
    SymbolsStayAll(fd.messageType, Text(fd.package), visible, Text(fd.package));
  }

  /** Extension fields are left out: whatever they refer to, they stay as written and nothing is reported about them. */
  lemma ExtensionsIgnored(fd: D.FileDescriptor, m: D.MessageDescriptor, prefix: Str, xs: seq<D.FieldDescriptor>,
                          visible: set<Str>)
    ensures FileErrors(fd.(extension := xs), visible) == FileErrors(fd, visible)
    ensures ResolvedFile(fd.(extension := xs), visible) == ResolvedFile(fd, visible).(extension := xs)
    ensures Errors(m.(extension := xs), prefix, visible) == Errors(m, prefix, visible)
    ensures Resolved(m.(extension := xs), prefix, visible) == Resolved(m, prefix, visible).(extension := xs)
  {
    hide ErrorsAll, ServicesErrors, FieldsErrors, ResolvedFields, ResolvedAll, ResolvedServices, IsUtf8;
  }

  // ------------------------------------------------------------------------ the passes

  class Resolver {
    const visible: set<Str>
    var errors: seq<Unknown>

    constructor (visible: set<Str>)
      ensures this.visible == visible && errors == []
    {
      this.visible, errors := visible, [];
    }

    /** A reference in place; an unknown one is reported and left as it is. */
    method ResolveReference(t: Option<Str>, at: Option<Str>, pkg: Str) returns (r: Option<Str>)
      modifies this
      ensures r == ResolvedName(t, pkg, visible)
      ensures errors == old(errors) + NameErrors(t, at, pkg, visible)
    {
      r := t;
      if t.Some? {
        var found := ResolveTypeName(t.value, pkg, visible);
        if found.Some? { r := found; } else { errors := errors + [Unknown(t.value, Text(at))]; }
      }
    }

    /** `resolve_field_type` */
    method ResolveFieldType(f: D.FieldDescriptor, pkg: Str) returns (f': D.FieldDescriptor)
      modifies this
      ensures f' == ResolvedField(f, pkg, visible)
      ensures errors == old(errors) + FieldErrors(f, pkg, visible)
    {
      f' := f;
      if IsReference(f) {
        var t := ResolveReference(f.typeName, f.name, pkg);
        f' := f.(typeName := t);
      }
    }

    method ResolveFields(fs: seq<D.FieldDescriptor>, prefix: Str) returns (r: seq<D.FieldDescriptor>)
      modifies this
      ensures r == ResolvedFields(fs, prefix, visible)
      ensures errors == old(errors) + FieldsErrors(fs, prefix, visible)
    {
      hide ResolvedField, FieldErrors, IsUtf8;
      r := [];
      var i := 0;
      while i < |fs|
        invariant 0 <= i <= |fs| && |r| == i
        invariant forall k :: 0 <= k < i ==> r[k] == ResolvedField(fs[k], prefix, visible)
        invariant errors == old(errors) + FieldsErrors(fs[..i], prefix, visible)
      {
        var f := ResolveFieldType(fs[i], prefix);
        r := r + [f];
        assert fs[..i + 1][..i] == fs[..i];
        i := i + 1;
      }
      assert fs[..|fs|] == fs;
    }

    /** `resolve_message` */
    method ResolveMessage(m: D.MessageDescriptor, prefix: Str) returns (m': D.MessageDescriptor)
      modifies this
      ensures m' == Resolved(m, prefix, visible)
      ensures errors == old(errors) + Errors(m, prefix, visible)
      decreases m, 2
    {
      hide ResolvedFields, FieldsErrors, ResolvedAll, ErrorsAll, IsUtf8;
      ghost var before := errors;
      var selfPath := Qualify(prefix, Text(m.name));
      var fields := ResolveFields(m.field, prefix);
      var nested := ResolveMessages(m.nestedType, selfPath);
      m' := m.(field := fields, nestedType := nested);
      Assoc(before, FieldsErrors(m.field, prefix, visible), ErrorsAll(m.nestedType, selfPath, visible));
    }

    method ResolveMessages(ms: seq<D.MessageDescriptor>, prefix: Str) returns (r: seq<D.MessageDescriptor>)
      modifies this
      ensures r == ResolvedAll(ms, prefix, visible)
      ensures errors == old(errors) + ErrorsAll(ms, prefix, visible)
      decreases ms, 3
    {
      hide Resolved, Errors, IsUtf8;
      r := [];
      var i := 0;
      while i < |ms|
        invariant 0 <= i <= |ms| && r == ResolvedAll(ms[..i], prefix, visible)
        invariant errors == old(errors) + ErrorsAll(ms[..i], prefix, visible)
      {
        var m := ResolveMessage(ms[i], prefix);
        r := r + [m];
        assert ms[..i + 1][..i] == ms[..i];
        i := i + 1;
      }
      assert ms[..|ms|] == ms;
    }

    /** One method of a service, in `resolve_service`. */
    method ResolveMethod(m: D.MethodDescriptor, pkg: Str) returns (m': D.MethodDescriptor)
      modifies this
      ensures m' == ResolvedMethod(m, pkg, visible)
      ensures errors == old(errors) + MethodErrors(m, pkg, visible)
      ensures errors == old(errors) <==> Settled(m'.inputType, visible) && Settled(m'.outputType, visible)
    {
      hide ResolvedName, NameErrors, IsUtf8, Settled;
      var input := ResolveReference(m.inputType, m.name, pkg);
      var output := ResolveReference(m.outputType, m.name, pkg);
      m' := m.(inputType := input, outputType := output);
      NameSettled(m.inputType, m.name, pkg, visible);
      NameSettled(m.outputType, m.name, pkg, visible);
    }

    /** `resolve_service` */
    method ResolveService(s: D.ServiceDescriptor, pkg: Str) returns (s': D.ServiceDescriptor)
      modifies this
      ensures s' == ResolvedService(s, pkg, visible)
      ensures errors == old(errors) + MethodsErrors(s.methods, pkg, visible)
    {
      hide ResolvedMethod, ResolvedMethods, MethodErrors, IsUtf8, Settled;
      var ms := s.methods;
      var r: seq<D.MethodDescriptor> := [];
      assert ResolvedMethods(ms[..0], pkg, visible) == [];
      var i := 0;
      while i < |ms|
        invariant 0 <= i <= |ms|
        invariant r == ResolvedMethods(ms[..i], pkg, visible)
        invariant errors == old(errors) + MethodsErrors(ms[..i], pkg, visible)
      {
        var m := ResolveMethod(ms[i], pkg);
        r := r + [m];
        assert ms[..i + 1][..i] == ms[..i];
        ResolvedMethodsSnoc(ms[..i + 1], pkg, visible);
        i := i + 1;
      }
      assert ms[..|ms|] == ms;
      s' := s.(methods := r);
    }

    /** `resolve_references` */
    method ResolveReferences(fd: D.FileDescriptor) returns (fd': D.FileDescriptor)
      modifies this
      ensures fd' == ResolvedFile(fd, visible)
      ensures errors == old(errors) + FileErrors(fd, visible)
      ensures errors == old(errors) <==> FileClosed(fd', visible)
    {
      hide ResolvedAll, ErrorsAll, ResolvedService, MethodsErrors, FileClosed, IsUtf8;
      ghost var before := errors;
      var (pkg, ss) := (Text(fd.package), fd.service);
      var messages := ResolveMessages(fd.messageType, pkg);
      ghost var middle := errors;
      var services: seq<D.ServiceDescriptor> := [];
      var i := 0;
      while i < |ss|
        invariant 0 <= i <= |ss| && |services| == i
        invariant forall k :: 0 <= k < i ==> services[k] == ResolvedService(ss[k], pkg, visible)
        invariant errors == middle + ServicesErrors(ss[..i], pkg, visible)
      {
        var s := ResolveService(ss[i], pkg);
        services := services + [s];
        assert ss[..i + 1][..i] == ss[..i];
        i := i + 1;
      }
      assert ss[..|ss|] == ss;
      fd' := fd.(messageType := messages, service := services);
      assert services == ResolvedServices(ss, pkg, visible);
      Assoc(before, ErrorsAll(fd.messageType, pkg, visible), ServicesErrors(ss, pkg, visible));
      FileErrorFree(fd, visible);
    }
  }
}
