/**
 * The references of a file one by one (compiler/pipeline.rs): which fields and methods, at whatever depth, are
 * resolved, which are reported, and which stay as they are.
 */
module ReferenceErrors {
  import opened Wrappers
  import opened Utf8
  import opened TypeNames
  import opened References
  import D = Descriptor

  // ---------------------------------------------------------------- messages by their place

  /** The message at the end of a chain of nested messages, each given by its place among its siblings. */
  function MessageAt(ms: seq<D.MessageDescriptor>, path: seq<nat>): Option<D.MessageDescriptor>
    decreases |path|
  {
    if |path| == 0 || path[0] >= |ms| then None
    else if |path| == 1 then Some(ms[path[0]])
    else MessageAt(ms[path[0]].nestedType, path[1..])
  }

  /** The scope around that message: the package and the names of the messages it is nested in. */
  function ScopeAt(ms: seq<D.MessageDescriptor>, path: seq<nat>, pkg: Str): Str
    requires MessageAt(ms, path).Some?
    decreases |path|
  {
    if |path| == 1 then pkg
    else ScopeAt(ms[path[0]].nestedType, path[1..], Qualify(pkg, Text(ms[path[0]].name)))
  }

  predicate HasField(ms: seq<D.MessageDescriptor>, path: seq<nat>, i: nat) {
    MessageAt(ms, path).Some? && i < |MessageAt(ms, path).value.field|
  }

  function FieldAt(ms: seq<D.MessageDescriptor>, path: seq<nat>, i: nat): D.FieldDescriptor
    requires HasField(ms, path, i)
  {
    MessageAt(ms, path).value.field[i]
  }

  // ------------------------------------------------------------------- membership in the errors

  lemma {:induction false} InFields(fs: seq<D.FieldDescriptor>, pkg: Str, visible: set<Str>, e: Unknown)
    ensures e in FieldsErrors(fs, pkg, visible) <==>
            exists i :: 0 <= i < |fs| && e in FieldErrors(fs[i], pkg, visible)
  {
    hide FieldErrors, IsUtf8;
    if |fs| > 0 {
      var front := fs[..|fs| - 1];
      InFields(front, pkg, visible, e);
      assert forall i :: 0 <= i < |front| ==> front[i] == fs[i];
      if i :| 0 <= i < |fs| && e in FieldErrors(fs[i], pkg, visible) {
        if i < |front| { assert e in FieldErrors(front[i], pkg, visible); }
      }
    }
  }

  lemma {:induction false} InMessages(ms: seq<D.MessageDescriptor>, pkg: Str, visible: set<Str>, e: Unknown)
    ensures e in ErrorsAll(ms, pkg, visible) <==>
            exists i :: 0 <= i < |ms| && e in Errors(ms[i], pkg, visible)
  {
    hide Errors, IsUtf8;
    if |ms| > 0 {
      var front := ms[..|ms| - 1];
      InMessages(front, pkg, visible, e);
      assert forall i :: 0 <= i < |front| ==> front[i] == ms[i];
      if i :| 0 <= i < |ms| && e in Errors(ms[i], pkg, visible) {
        if i < |front| { assert e in Errors(front[i], pkg, visible); }
      }
    }
  }

  /** One field: the three types that name another one, each written out. */
  lemma OneField(f: D.FieldDescriptor, pkg: Str, visible: set<Str>)
    ensures var f' := ResolvedField(f, pkg, visible);
            if f.typeName.Some? && (f.ty == Some(D.MessageType) || f.ty == Some(D.Enum) || f.ty == Some(D.Group)) then
              match Resolve(f.typeName.value, pkg, visible)
              case None => f' == f && FieldErrors(f, pkg, visible) == [Unknown(f.typeName.value, Text(f.name))]
              case Some(name) =>
                && f' == f.(typeName := Some(name)) && FieldErrors(f, pkg, visible) == []
                && |name| > 0 && name[0] == 46 && name in visible
            else f' == f && FieldErrors(f, pkg, visible) == []
  {
    hide IsUtf8, Resolve;
    if f.typeName.Some? { ResolvedIsVisible(f.typeName.value, pkg, visible); }
  }

  /** The field at a place goes through the pass by itself, in the scope around its message. */
  lemma {:induction false} FieldByItself(ms: seq<D.MessageDescriptor>, path: seq<nat>, i: nat, pkg: Str,
                                         visible: set<Str>)
    requires HasField(ms, path, i)
    ensures var (f, scope, ms') := (FieldAt(ms, path, i), ScopeAt(ms, path, pkg), ResolvedAll(ms, pkg, visible));
            && HasField(ms', path, i) && FieldAt(ms', path, i) == ResolvedField(f, scope, visible)
            && forall e :: e in FieldErrors(f, scope, visible) ==> e in ErrorsAll(ms, pkg, visible)
    decreases |path|
  {
    hide IsUtf8, ResolvedField, FieldErrors, ResolvedAll, ErrorsAll, Qualify;
    var m := ms[path[0]];
    var self := Qualify(pkg, Text(m.name));
    ResolvedAllAt(ms, path[0], pkg, visible);
    if |path| > 1 { FieldByItself(m.nestedType, path[1..], i, self, visible); }
    var (f, scope) := (FieldAt(ms, path, i), ScopeAt(ms, path, pkg));
    forall e | e in FieldErrors(f, scope, visible)
      ensures e in ErrorsAll(ms, pkg, visible)
    {
      if |path| == 1 { InFields(m.field, pkg, visible, e); }
      assert e in Errors(m, pkg, visible);
      InMessages(ms, pkg, visible, e);
    }
  }

  /**
   * Every field at every depth. One whose type is a message, an enum or a group and that has a type name: the name is
   * reported and stays if it does not resolve in the scope around the message; otherwise it becomes the absolute
   * name of something visible. Every other field stays as it is.
   */
  lemma FieldSettledOrReported(fd: D.FileDescriptor, path: seq<nat>, i: nat, visible: set<Str>)
    requires HasField(fd.messageType, path, i)
    ensures var f := FieldAt(fd.messageType, path, i);
            var scope := ScopeAt(fd.messageType, path, Text(fd.package));
            && HasField(ResolvedFile(fd, visible).messageType, path, i)
            && var f' := FieldAt(ResolvedFile(fd, visible).messageType, path, i);
               if f.typeName.Some? && (f.ty == Some(D.MessageType) || f.ty == Some(D.Enum) || f.ty == Some(D.Group)) then
                 match Resolve(f.typeName.value, scope, visible)
                 case None => f' == f && Unknown(f.typeName.value, Text(f.name)) in FileErrors(fd, visible)
                 case Some(name) =>
                   f' == f.(typeName := Some(name)) && |name| > 0 && name[0] == 46 && name in visible
               else f' == f
  {
    hide IsUtf8, Resolve, ResolvedField, FieldErrors, ResolvedAll, ErrorsAll, ServicesErrors;
    var (ms, pkg) := (fd.messageType, Text(fd.package));
    FieldByItself(ms, path, i, pkg, visible);
    OneField(FieldAt(ms, path, i), ScopeAt(ms, path, pkg), visible);
  }

  // --------------------------------------------------------------------- nothing else is reported

  /** The field names a type that is not found, and `e` says so. */
  ghost predicate OpenField(ms: seq<D.MessageDescriptor>, path: seq<nat>, i: nat, pkg: Str, visible: set<Str>, e: Unknown) {
    && HasField(ms, path, i)
    && var f := FieldAt(ms, path, i);
       && f.typeName.Some? && (f.ty == Some(D.MessageType) || f.ty == Some(D.Enum) || f.ty == Some(D.Group))
       && Resolve(f.typeName.value, ScopeAt(ms, path, pkg), visible) == None
       && e == Unknown(f.typeName.value, Text(f.name))
  }

  lemma OpenIsReported(ms: seq<D.MessageDescriptor>, path: seq<nat>, i: nat, pkg: Str, visible: set<Str>, e: Unknown)
    requires OpenField(ms, path, i, pkg, visible, e)
    ensures e in ErrorsAll(ms, pkg, visible)
  {
    hide IsUtf8, Resolve, ResolvedField, FieldErrors, ResolvedAll, ErrorsAll;
    FieldByItself(ms, path, i, pkg, visible);
    OneField(FieldAt(ms, path, i), ScopeAt(ms, path, pkg), visible);
  }

  lemma OpenHere(ms: seq<D.MessageDescriptor>, k: nat, j: nat, pkg: Str, visible: set<Str>, e: Unknown)
    requires k < |ms| && j < |ms[k].field| && e in FieldErrors(ms[k].field[j], pkg, visible)
    ensures OpenField(ms, [k], j, pkg, visible, e)
  {
    hide IsUtf8, Resolve, ResolvedField, FieldErrors;
    OneField(ms[k].field[j], pkg, visible);
  }

  lemma OpenInside(ms: seq<D.MessageDescriptor>, k: nat, path: seq<nat>, i: nat, pkg: Str, visible: set<Str>, e: Unknown)
    requires k < |ms| && |path| > 0
    requires OpenField(ms[k].nestedType, path, i, Qualify(pkg, Text(ms[k].name)), visible, e)
    ensures OpenField(ms, [k] + path, i, pkg, visible, e)
  {
    hide IsUtf8, Resolve, Qualify;
    assert ([k] + path)[1..] == path;
  }

  lemma {:induction false} ReportedIsOpen(ms: seq<D.MessageDescriptor>, pkg: Str, visible: set<Str>, e: Unknown)
    returns (path: seq<nat>, i: nat)
    requires e in ErrorsAll(ms, pkg, visible)
    ensures |path| > 0 && OpenField(ms, path, i, pkg, visible, e)
    decreases ms
  {
    hide IsUtf8, OpenField, FieldErrors, FieldsErrors, ErrorsAll, Qualify;
    InMessages(ms, pkg, visible, e);
    var k :| 0 <= k < |ms| && e in Errors(ms[k], pkg, visible);
    var m := ms[k];
    if e in FieldsErrors(m.field, pkg, visible) {
      InFields(m.field, pkg, visible, e);
      i :| 0 <= i < |m.field| && e in FieldErrors(m.field[i], pkg, visible);
      path := [k];
      OpenHere(ms, k, i, pkg, visible, e);
    } else {
      path, i := ReportedIsOpen(m.nestedType, Qualify(pkg, Text(m.name)), visible, e);
      OpenInside(ms, k, path, i, pkg, visible, e);
      path := [k] + path;
    }
  }

  /** The request or the response of the method is a type that is not found, and `e` says so. */
  ghost predicate OpenMethod(fd: D.FileDescriptor, s: nat, k: nat, visible: set<Str>, e: Unknown) {
    && s < |fd.service| && k < |fd.service[s].methods|
    && var m := fd.service[s].methods[k];
       || (m.inputType.Some? && Resolve(m.inputType.value, Text(fd.package), visible) == None
           && e == Unknown(m.inputType.value, Text(m.name)))
       || (m.outputType.Some? && Resolve(m.outputType.value, Text(fd.package), visible) == None
           && e == Unknown(m.outputType.value, Text(m.name)))
  }

  lemma {:induction false} InMethods(ms: seq<D.MethodDescriptor>, pkg: Str, visible: set<Str>, e: Unknown)
    ensures e in MethodsErrors(ms, pkg, visible) <==>
            exists i :: 0 <= i < |ms| && e in MethodErrors(ms[i], pkg, visible)
  {
    hide MethodErrors, IsUtf8;
    if |ms| > 0 {
      var front := ms[..|ms| - 1];
      InMethods(front, pkg, visible, e);
      assert forall i :: 0 <= i < |front| ==> front[i] == ms[i];
      if i :| 0 <= i < |ms| && e in MethodErrors(ms[i], pkg, visible) {
        if i < |front| { assert e in MethodErrors(front[i], pkg, visible); }
      }
    }
  }

  lemma {:induction false} InServices(ss: seq<D.ServiceDescriptor>, pkg: Str, visible: set<Str>, e: Unknown)
    ensures e in ServicesErrors(ss, pkg, visible) <==>
            exists i :: 0 <= i < |ss| && e in MethodsErrors(ss[i].methods, pkg, visible)
  {
    hide MethodsErrors, IsUtf8;
    if |ss| > 0 {
      var front := ss[..|ss| - 1];
      InServices(front, pkg, visible, e);
      assert forall i :: 0 <= i < |front| ==> front[i] == ss[i];
      if i :| 0 <= i < |ss| && e in MethodsErrors(ss[i].methods, pkg, visible) {
        if i < |front| { assert e in MethodsErrors(front[i].methods, pkg, visible); }
      }
    }
  }

  /** Every method of every service: its two types are looked up in the package, each for itself. */
  lemma MethodSettledOrReported(fd: D.FileDescriptor, s: nat, k: nat, visible: set<Str>)
    requires s < |fd.service| && k < |fd.service[s].methods|
    ensures var (m, ss') := (fd.service[s].methods[k], ResolvedFile(fd, visible).service);
            && |ss'| == |fd.service| && |ss'[s].methods| == |fd.service[s].methods|
            && var m' := ss'[s].methods[k];
               && m' == m.(inputType := m'.inputType, outputType := m'.outputType)
               && (forall t, t' :: (t, t') in [(m.inputType, m'.inputType), (m.outputType, m'.outputType)] ==>
                     if t.None? then t' == None
                     else
                       match Resolve(t.value, Text(fd.package), visible)
                       case None => t' == t
                       case Some(name) => t' == Some(name) && |name| > 0 && name[0] == 46 && name in visible)
  {
    hide IsUtf8, Resolve, ResolvedAll;
    var (m, pkg) := (fd.service[s].methods[k], Text(fd.package));
    if m.inputType.Some? { ResolvedIsVisible(m.inputType.value, pkg, visible); }
    if m.outputType.Some? { ResolvedIsVisible(m.outputType.value, pkg, visible); }
  }

  lemma OneMethod(m: D.MethodDescriptor, pkg: Str, visible: set<Str>, e: Unknown)
    ensures e in MethodErrors(m, pkg, visible) <==>
            || (m.inputType.Some? && Resolve(m.inputType.value, pkg, visible) == None
                && e == Unknown(m.inputType.value, Text(m.name)))
            || (m.outputType.Some? && Resolve(m.outputType.value, pkg, visible) == None
                && e == Unknown(m.outputType.value, Text(m.name)))
  {
    hide IsUtf8, Resolve;
  }

  lemma InOpenMethods(fd: D.FileDescriptor, visible: set<Str>, e: Unknown)
    ensures e in ServicesErrors(fd.service, Text(fd.package), visible) <==> exists s: nat, k: nat :: OpenMethod(fd, s, k, visible, e)
  {
    hide IsUtf8, Resolve, MethodErrors, MethodsErrors, ServicesErrors;
    var pkg := Text(fd.package);
    InServices(fd.service, pkg, visible, e);
    if e in ServicesErrors(fd.service, pkg, visible) {
      var s :| 0 <= s < |fd.service| && e in MethodsErrors(fd.service[s].methods, pkg, visible);
      var ms := fd.service[s].methods;
      InMethods(ms, pkg, visible, e);
      var k :| 0 <= k < |ms| && e in MethodErrors(ms[k], pkg, visible);
      OneMethod(ms[k], pkg, visible, e);
      assert OpenMethod(fd, s, k, visible, e);
    }
    if s: nat, k: nat :| OpenMethod(fd, s, k, visible, e) {
      var ms := fd.service[s].methods;
      OneMethod(ms[k], pkg, visible, e);
      InMethods(ms, pkg, visible, e);
    }
  }

  /** What a pass over a file reports is exactly what it could not find: in fields at any depth, and in methods. */
  lemma ReportedExactly(fd: D.FileDescriptor, visible: set<Str>, e: Unknown)
    ensures e in FileErrors(fd, visible) <==>
            || (exists path: seq<nat>, i: nat :: OpenField(fd.messageType, path, i, Text(fd.package), visible, e))
            || (exists s: nat, k: nat :: OpenMethod(fd, s, k, visible, e))
  {
    hide IsUtf8, OpenField, OpenMethod, ErrorsAll, ServicesErrors;
    var (ms, pkg) := (fd.messageType, Text(fd.package));
    InOpenMethods(fd, visible, e);
    if e in ErrorsAll(ms, pkg, visible) { var path, i := ReportedIsOpen(ms, pkg, visible, e); }
    if path: seq<nat>, i: nat :| OpenField(ms, path, i, pkg, visible, e) { OpenIsReported(ms, path, i, pkg, visible, e); }
  }
}
