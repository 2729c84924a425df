/**
 * Names across a compiled set (compiler/lib.rs, compiler/pipeline.rs): the synthetic map entries, and where the
 * symbols behind resolved references are defined.
 */
module CompiledNames {
  import opened Wrappers
  import opened WireBasics
  import opened Utf8
  import opened TypeNames
  import opened SymbolTable
  import opened References
  import D = Descriptor
  import V = ImportVisibility

  // ---------------------------------------------------------------- visible names of a file

  /** The symbols of a file and of the files it sees. */
  function VisibleNames(t: Table, file: string, seen: set<string>): set<Str> {
    SymbolsOf(t, file) + (set f, s | f in seen && s in SymbolsOf(t, f) :: s)
  }

  ghost predicate DefinedIn(files: seq<Named>, s: Str, file: string) {
    exists i :: 0 <= i < |files| && files[i].0 == file && Defines(files[i], s)
  }

  lemma SymbolsMeaning(files: seq<Named>, file: string, s: Str)
    ensures s in SymbolsOf(Collected(files), file) <==> DefinedIn(files, s, file)
  {
    hide Defines, Collected, SymbolsOf, IsUtf8;
    if s in SymbolsOf(Collected(files), file) {
      var i := SymbolsAreDefined(files, file, s);
    }
    if DefinedIn(files, s, file) {
      var i :| 0 <= i < |files| && files[i].0 == file && Defines(files[i], s);
      DefinedIsOwned(files, i, s);
    }
  }

  lemma VisibleMeaning(files: seq<Named>, file: string, seen: set<string>, s: Str)
    ensures s in VisibleNames(Collected(files), file, seen) <==>
            DefinedIn(files, s, file) || exists f :: f in seen && DefinedIn(files, s, f)
  {
    hide DefinedIn, Collected, SymbolsOf, IsUtf8;
    SymbolsMeaning(files, file, s);
    forall f | f in seen
      ensures s in SymbolsOf(Collected(files), f) <==> DefinedIn(files, s, f)
    {
      SymbolsMeaning(files, f, s);
    }
  }

  /** `s` is defined in `file`, in a file it imports, or in one that such a file re-exports publicly. */
  ghost predicate Reachable(files: seq<Named>, graph: V.Files, file: string, s: Str)
    requires file in graph
  {
    || DefinedIn(files, s, file)
    || exists f, i :: 0 <= i < |graph[file]| && graph[file][i].path in graph && V.Shows(graph, graph[file][i].path, f)
                      && DefinedIn(files, s, f)
  }

  /**
   * After an error-free pass over a file, at every nesting depth each message or enum reference is the absolute name
   * of a symbol defined in the file itself or in a file it imports directly or through public imports.
   */
  lemma ReferencesAreImported(files: seq<Named>, graph: V.Files, file: string, seen: set<string>,
                              m: D.MessageDescriptor, prefix: Str)
    requires file in graph && V.SeesOnly(graph, graph[file], seen)
    requires Errors(m, prefix, VisibleNames(Collected(files), file, seen)) == []
    ensures var visible := VisibleNames(Collected(files), file, seen);
            && Closed(Resolved(m, prefix, visible), visible)
            && forall s :: s in visible ==> Reachable(files, graph, file, s)
  {
    hide Closed, Resolved, Errors, Collected, DefinedIn, IsUtf8, V.Shows;
    var visible := VisibleNames(Collected(files), file, seen);
    ErrorFreeIsClosed(m, prefix, visible);
    forall s | s in visible
      ensures Reachable(files, graph, file, s)
    {
      VisibleMeaning(files, file, seen, s);
      if !DefinedIn(files, s, file) {
        var f :| f in seen && DefinedIn(files, s, f);
        var i :| 0 <= i < |graph[file]| && graph[file][i].path in graph && V.Shows(graph, graph[file][i].path, f);
      }
    }
  }

  // ------------------------------------------------------------------------- map entries

  /** A map field of the syntax tree; its key and value as `resolve_type` converts them. */
  datatype MapField = MapField(
    name: Str, number: i32, keyType: D.FieldType, keyName: Option<Str>, valueType: D.FieldType, valueName: Option<Str>)

  /** A oneof with its members as `convert_field` leaves them. */
  datatype Oneof = Oneof(name: Str, fields: seq<D.FieldDescriptor>)

  /** A parsed message; fields, extensions, enums and ranges are given as already converted. */
  datatype Ast = Ast(
    name: Str, oneofs: seq<Oneof>, fields: seq<D.FieldDescriptor>, maps: seq<MapField>, nested: seq<Ast>,
    enums: seq<D.EnumDescriptor>, extensions: seq<D.FieldDescriptor>, reservedRanges: seq<D.ReservedRange>,
    reservedNames: seq<Str>, extensionRanges: seq<D.ExtensionRange>)

  /** The path of a message, without a leading dot. */
  function SelfPath(path: Str, name: Str): (r: Str)
    ensures r == if path == [] then name else path + [DOT] + name
  {
    if path == [] then name
    else
      Assoc(path, [DOT], name);
      Append(path, Dotted(name))
  }

  const ENTRY: bytes := [69, 110, 116, 114, 121]

  function EntryName(map_: MapField): (r: Str)
    ensures r == map_.name + ENTRY
  {
    EntryIsUtf8();
    Utf8Append(map_.name, ENTRY);
    map_.name + ENTRY
  }

  lemma EntryIsUtf8()
    ensures IsUtf8(ENTRY)
  {
    AsciiText(ENTRY);
  }

  /** The type name given to the field of a map. */
  function EntryType(self: Str, map_: MapField): (r: Str)
    ensures r == [DOT] + self + [DOT] + EntryName(map_)
  {
    Assoc([DOT] + self, [DOT], EntryName(map_));
    Append(Dotted(self), Dotted(EntryName(map_)))
  }

  /** `MessageOptions` with only `map_entry`, its field 7, set. */
  const MAP_ENTRY_OPTIONS: bytes := [0x38, 1]

  const BARE := D.FieldDescriptor(None, None, None, None, None, None, None, None, None, None, None)

  function Entry(map_: MapField): D.MessageDescriptor {
    D.MessageDescriptor(
      Some(EntryName(map_)),
      [KeyField(map_), ValueField(map_)], [], [], [], [], [], Some(MAP_ENTRY_OPTIONS), [], [])
  }

  function KeyName(): (r: Str)
    ensures r == [107, 101, 121]
  {
    AsciiName();
    [107, 101, 121]
  }

  function ValueName(): (r: Str)
    ensures r == [118, 97, 108, 117, 101]
  {
    AsciiName();
    [118, 97, 108, 117, 101]
  }

  function KeyField(map_: MapField): D.FieldDescriptor {
    BARE.(name := Some(KeyName()), number := Some(1), fieldLabel := Some(D.Optional), ty := Some(map_.keyType),
          typeName := map_.keyName)
  }

  function ValueField(map_: MapField): D.FieldDescriptor {
    BARE.(name := Some(ValueName()), number := Some(2), fieldLabel := Some(D.Optional), ty := Some(map_.valueType),
          typeName := map_.valueName)
  }

  lemma AsciiName()
    ensures IsUtf8([107, 101, 121]) && IsUtf8([118, 97, 108, 117, 101])
  {
    AsciiText([107, 101, 121]);
    AsciiText([118, 97, 108, 117, 101]);
  }

  lemma {:induction false} AsciiText(s: bytes)
    requires forall i :: 0 <= i < |s| ==> s[i] < 0x80
    ensures IsUtf8(s)
  {
    if |s| > 0 {
      assert FrontLength(s) == 1;
      AsciiText(s[1..]);
    }
  }

  function MapFieldOf(self: Str, map_: MapField): D.FieldDescriptor {
    BARE.(name := Some(map_.name), number := Some(map_.number), fieldLabel := Some(D.Repeated),
          ty := Some(D.MessageType), typeName := Some(EntryType(self, map_)))
  }

  function Entries(maps: seq<MapField>): (r: seq<D.MessageDescriptor>)
    ensures |r| == |maps| && forall i :: 0 <= i < |maps| ==> r[i] == Entry(maps[i])
  {
    seq(|maps|, i requires 0 <= i < |maps| => Entry(maps[i]))
  }

  function MapFields(self: Str, maps: seq<MapField>): (r: seq<D.FieldDescriptor>)
    ensures |r| == |maps| && forall i :: 0 <= i < |maps| ==> r[i] == MapFieldOf(self, maps[i])
  {
    seq(|maps|, i requires 0 <= i < |maps| => MapFieldOf(self, maps[i]))
  }

  /** A member of the `i`-th oneof: it knows its oneof, and its own label and presence mark are dropped. */
  function Member(i: nat, f: D.FieldDescriptor): D.FieldDescriptor {
    f.(oneofIndex := Some(Signed32(i % U64)), fieldLabel := Some(D.Optional), proto3Optional := None)
  }

  function Members(i: nat, fs: seq<D.FieldDescriptor>): (r: seq<D.FieldDescriptor>)
    ensures |r| == |fs| && forall k :: 0 <= k < |fs| ==> r[k] == Member(i, fs[k])
  {
    seq(|fs|, k requires 0 <= k < |fs| => Member(i, fs[k]))
  }

  function OneofFields(os: seq<Oneof>): seq<D.FieldDescriptor> {
    if |os| == 0 then [] else OneofFields(os[..|os| - 1]) + Members(|os| - 1, os[|os| - 1].fields)
  }

  function OneofDecls(os: seq<Oneof>): (r: seq<D.OneofDescriptor>)
    ensures |r| == |os| && forall i :: 0 <= i < |os| ==> r[i] == D.OneofDescriptor(Some(os[i].name), None)
  {
    seq(|os|, i requires 0 <= i < |os| => D.OneofDescriptor(Some(os[i].name), None))
  }

  /** `convert_message`: the members of the oneofs first, then the other fields, then the maps. */
  function Converted(m: Ast, path: Str): (r: D.MessageDescriptor)
    ensures r.name == Some(m.name)
    decreases m, 0
  {
    var self := SelfPath(path, m.name);
    D.MessageDescriptor(
      Some(m.name),
      OneofFields(m.oneofs) + m.fields + MapFields(self, m.maps),
      m.extensions,
      Entries(m.maps) + ConvertedAll(m.nested, self),
      m.enums, m.extensionRanges, OneofDecls(m.oneofs), None, m.reservedRanges, m.reservedNames)
  }

  function ConvertedAll(ms: seq<Ast>, path: Str): (r: seq<D.MessageDescriptor>)
    ensures |r| == |ms|
    decreases ms, 1
  {
    if |ms| == 0 then []
    else ConvertedAll(ms[..|ms| - 1], path) + [Converted(ms[|ms| - 1], path)]
  }

  /** The path under which a message is converted and the prefix under which it is registered say the same. */
  predicate Aligned(path: Str, prefix: Str) {
    Strip(prefix) == path
  }

  lemma AlignedInside(path: Str, prefix: Str, name: Str)
    requires Aligned(path, prefix)
    ensures Qualify(prefix, name) == [DOT] + SelfPath(path, name)
    ensures Aligned(SelfPath(path, name), Qualify(prefix, name))
  {
    hide IsUtf8;
    if path != [] {
      Assoc([DOT], path, [DOT] + name);
      Assoc(path, [DOT], name);
      assert [DOT] + path + [DOT] + name == [DOT] + (path + [DOT] + name);
    }
  }

  /**
   * For a map of a top-level message: the name on its field is the registered one if and only if the package has no
   * leading dot and the message has a path at all.
   */
  lemma EntryRegisteredIff(pkg: Str, m: Ast, i: nat)
    requires i < |m.maps|
    ensures EntryType(SelfPath(pkg, m.name), m.maps[i]) == Qualify(Qualify(pkg, m.name), EntryName(m.maps[i]))
            <==> !Absolute(pkg) && SelfPath(pkg, m.name) != []
  {
    hide IsUtf8;
    if Absolute(pkg) {
      var fqn := Qualify(pkg, m.name);
      assert |fqn| <= 1 + (|pkg| - 1) + 1 + |m.name|;
      assert |Qualify(fqn, EntryName(m.maps[i]))| <= |fqn| + 1 + |EntryName(m.maps[i])|;
    } else {
      EntryRegistered(pkg, pkg, m, i);
    }
  }

  lemma EntryRegistered(path: Str, prefix: Str, m: Ast, i: nat)
    requires Aligned(path, prefix) && i < |m.maps|
    ensures EntryType(SelfPath(path, m.name), m.maps[i]) == Qualify(Qualify(prefix, m.name), EntryName(m.maps[i]))
            <==> SelfPath(path, m.name) != []
  {
    hide IsUtf8;
    AlignedInside(path, prefix, m.name);
    var (self, entry) := (SelfPath(path, m.name), EntryName(m.maps[i]));
    if self == [] { EntryNotDotted(entry); }
  }

  lemma EntryNotDotted(entry: bytes)
    ensures [DOT] + [] + [DOT] + entry != [DOT] + entry
  {
    assert |[DOT] + [] + [DOT] + entry| == |entry| + 2;
  }

  /** Every map field of the message and of everything nested in it names a symbol among `names`. */
  ghost predicate MapsRegistered(m: Ast, path: Str, names: seq<Str>)
    decreases m
  {
    var self := SelfPath(path, m.name);
    && (forall i :: 0 <= i < |m.maps| ==> EntryType(self, m.maps[i]) in names)
    && (forall i :: 0 <= i < |m.nested| ==> MapsRegistered(m.nested[i], self, names))
  }

  lemma {:induction false} RegisteredMore(m: Ast, path: Str, names: seq<Str>, more: seq<Str>)
    requires MapsRegistered(m, path, names) && forall s :: s in names ==> s in more
    ensures MapsRegistered(m, path, more)
    decreases m
  {
    hide IsUtf8;
    forall i | 0 <= i < |m.nested|
      ensures MapsRegistered(m.nested[i], SelfPath(path, m.name), more)
    {
      RegisteredMore(m.nested[i], SelfPath(path, m.name), names, more);
    }
  }

  lemma EntryInSymbols(ms: seq<D.MessageDescriptor>, i: nat, prefix: Str)
    requires i < |ms|
    ensures Qualify(prefix, Text(ms[i].name)) in MessagesSymbols(ms, prefix)
  {
    hide IsUtf8;
    MemberSymbols(ms, i, prefix, Qualify(prefix, Text(ms[i].name)));
  }

  lemma {:induction false} ConvertedAllAt(ms: seq<Ast>, i: nat, path: Str)
    requires i < |ms|
    ensures ConvertedAll(ms, path)[i] == Converted(ms[i], path)
  {
    if i < |ms| - 1 { ConvertedAllAt(ms[..|ms| - 1], i, path); }
  }

  lemma InnerSymbol(d: D.MessageDescriptor, prefix: Str, s: Str)
    requires s in MessagesSymbols(d.nestedType, Qualify(prefix, Text(d.name)))
    ensures s in MessageSymbols(d, prefix)
  {
    hide IsUtf8, MessagesSymbols, EnumSymbols;
  }

  lemma EntryPlace(m: Ast, path: Str, i: nat)
    requires i < |m.maps|
    ensures var d := Converted(m, path); i < |d.nestedType| && d.nestedType[i] == Entry(m.maps[i])
  {
    hide IsUtf8, Entry, MapFieldOf, ConvertedAll;
  }

  lemma NestedPlace(m: Ast, path: Str, i: nat)
    requires i < |m.nested|
    ensures var (d, k) := (Converted(m, path), |m.maps| + i);
            k < |d.nestedType| && d.nestedType[k] == Converted(m.nested[i], SelfPath(path, m.name))
  {
    hide IsUtf8, Entry, MapFieldOf, Entries, MapFields, ConvertedAll, SelfPath;
    ConvertedAllAt(m.nested, i, SelfPath(path, m.name));
    ConvertedNested(m, path);
    hide Converted;
  }

  lemma ConvertedNested(m: Ast, path: Str)
    ensures Converted(m, path).nestedType == Entries(m.maps) + ConvertedAll(m.nested, SelfPath(path, m.name))
  {
  }

  lemma OwnMapRegistered(m: Ast, path: Str, prefix: Str, i: nat)
    requires Aligned(path, prefix) && SelfPath(path, m.name) != [] && i < |m.maps|
    ensures EntryType(SelfPath(path, m.name), m.maps[i]) in MessageSymbols(Converted(m, path), prefix)
  {
    hide IsUtf8, Entry, MessagesSymbols, MessageSymbols, EnumSymbols, Converted;
    var (d, fqn) := (Converted(m, path), Qualify(prefix, m.name));
    EntryPlace(m, path, i);
    EntryRegistered(path, prefix, m, i);
    EntryNamed(m.maps[i]);
    EntryInSymbols(d.nestedType, i, fqn);
    InnerSymbol(d, prefix, Qualify(fqn, EntryName(m.maps[i])));
  }

  lemma NestedSymbol(m: Ast, path: Str, prefix: Str, i: nat, s: Str)
    requires i < |m.nested|
    requires s in MessageSymbols(Converted(m.nested[i], SelfPath(path, m.name)), Qualify(prefix, m.name))
    ensures s in MessageSymbols(Converted(m, path), prefix)
  {
    hide IsUtf8, MessagesSymbols, MessageSymbols, EnumSymbols, Converted, SelfPath, Qualify;
    NestedPlace(m, path, i);
    AtPlace(Converted(m, path), prefix, |m.maps| + i, s);
  }

  lemma AtPlace(d: D.MessageDescriptor, prefix: Str, k: nat, s: Str)
    requires k < |d.nestedType| && s in MessageSymbols(d.nestedType[k], Qualify(prefix, Text(d.name)))
    ensures s in MessageSymbols(d, prefix)
  {
    hide IsUtf8, MessagesSymbols, MessageSymbols, EnumSymbols, Qualify;
    MemberSymbols(d.nestedType, k, Qualify(prefix, Text(d.name)), s);
    InnerSymbol(d, prefix, s);
  }

  /** At any nesting depth the type name of a map field is the symbol registered for its synthetic entry. */
  lemma {:induction false} MapEntriesRegistered(m: Ast, path: Str, prefix: Str)
    requires Aligned(path, prefix) && SelfPath(path, m.name) != []
    ensures MapsRegistered(m, path, MessageSymbols(Converted(m, path), prefix))
    decreases m
  {
    hide IsUtf8, MessageSymbols, Converted;
    var (self, fqn) := (SelfPath(path, m.name), Qualify(prefix, m.name));
    var names := MessageSymbols(Converted(m, path), prefix);
    AlignedInside(path, prefix, m.name);
    forall i | 0 <= i < |m.maps|
      ensures EntryType(self, m.maps[i]) in names
    {
      OwnMapRegistered(m, path, prefix, i);
    }
    forall i | 0 <= i < |m.nested|
      ensures MapsRegistered(m.nested[i], self, names)
    {
      MapEntriesRegistered(m.nested[i], self, fqn);
      var sub := MessageSymbols(Converted(m.nested[i], self), fqn);
      forall s | s in sub
        ensures s in names
      {
        NestedSymbol(m, path, prefix, i, s);
      }
      RegisteredMore(m.nested[i], self, sub, names);
    }
  }

  lemma EntryNamed(map_: MapField)
    ensures Text(Entry(map_).name) == EntryName(map_)
  {
  }

  /** The same for a whole file: every map of every message, at any depth. */
  lemma FileMapsRegistered(ms: seq<Ast>, pkg: Str, i: nat)
    requires !Absolute(pkg) && i < |ms| && (pkg != [] || ms[i].name != [])
    ensures MapsRegistered(ms[i], pkg, MessagesSymbols(ConvertedAll(ms, pkg), pkg))
  {
    hide IsUtf8, MapsRegistered, MessageSymbols, MessagesSymbols;
    MapEntriesRegistered(ms[i], pkg, pkg);
    ConvertedAllAt(ms, i, pkg);
    var names := MessageSymbols(Converted(ms[i], pkg), pkg);
    forall s | s in names
      ensures s in MessagesSymbols(ConvertedAll(ms, pkg), pkg)
    {
      MemberSymbols(ConvertedAll(ms, pkg), i, pkg, s);
    }
    RegisteredMore(ms[i], pkg, names, MessagesSymbols(ConvertedAll(ms, pkg), pkg));
  }

  // ------------------------------------------------------------------------------ oneofs

  /** The fields that say they belong to the `i`-th oneof. */
  function OfOneof(fs: seq<D.FieldDescriptor>, i: nat): seq<D.FieldDescriptor> {
    if |fs| == 0 then []
    else
      var (front, last) := (OfOneof(fs[..|fs| - 1], i), fs[|fs| - 1]);
      if last.oneofIndex.Some? && last.oneofIndex.value == i then front + [last] else front
  }

  lemma {:induction false} OfOneofAppend(a: seq<D.FieldDescriptor>, b: seq<D.FieldDescriptor>, i: nat)
    ensures OfOneof(a + b, i) == OfOneof(a, i) + OfOneof(b, i)
  {
    if |b| == 0 {
      assert a + b == a;
    } else {
      OfOneofAppend(a, b[..|b| - 1], i);
      assert (a + b)[..|a + b| - 1] == a + b[..|b| - 1];
    }
  }

  predicate OutsideOneof(fs: seq<D.FieldDescriptor>, i: nat) {
    forall k :: 0 <= k < |fs| ==> fs[k].oneofIndex != Some(i)
  }

  lemma {:induction false} OfOneofNone(fs: seq<D.FieldDescriptor>, i: nat)
    requires i < HALF32 && OutsideOneof(fs, i)
    ensures OfOneof(fs, i) == []
  {
    if |fs| > 0 { OfOneofNone(fs[..|fs| - 1], i); }
  }

  lemma {:induction false} OfOneofAll(fs: seq<D.FieldDescriptor>, i: nat)
    requires forall k :: 0 <= k < |fs| ==> fs[k].oneofIndex.Some? && fs[k].oneofIndex.value == i
    ensures OfOneof(fs, i) == fs
  {
    if |fs| > 0 { OfOneofAll(fs[..|fs| - 1], i); }
  }

  lemma {:induction false} OneofFieldsOf(os: seq<Oneof>, i: nat)
    requires i < HALF32 && |os| <= HALF32
    ensures OfOneof(OneofFields(os), i) == if i < |os| then Members(i, os[i].fields) else []
  {
    hide OfOneof, IsUtf8, Member, OutsideOneof;
    if |os| == 0 {
      assert OfOneof([], i) == [] by { OfNothing(i); }
    } else {
      var (front, last) := (os[..|os| - 1], |os| - 1);
      OneofFieldsOf(front, i);
      OfOneofAppend(OneofFields(front), Members(last, os[last].fields), i);
      MembersOf(last, os[last].fields, i);
    }
  }

  lemma OfNothing(i: nat)
    ensures OfOneof([], i) == []
  {
  }

  /** The members of one oneof belong to it and to no other. */
  lemma MembersOf(j: nat, fs: seq<D.FieldDescriptor>, i: nat)
    requires i < HALF32 && j < HALF32
    ensures OfOneof(Members(j, fs), i) == if i == j then Members(j, fs) else []
  {
    hide OfOneof, IsUtf8;
    assert Signed32(j % U64) == j;
    if i == j { OfOneofAll(Members(j, fs), i); } else { OfOneofNone(Members(j, fs), i); }
  }

  /**
   * Nothing of a oneof is lost, reordered or mixed up with other fields: the fields that carry its index are exactly
   * its members, in order.
   */
  lemma OneofMembers(m: Ast, path: Str, i: nat)
    requires i < |m.oneofs| <= HALF32 && OutsideOneof(m.fields, i)
    ensures var d := Converted(m, path);
            && |d.oneofDecl| == |m.oneofs| && d.oneofDecl[i].name == Some(m.oneofs[i].name)
            && OfOneof(d.field, i) == Members(i, m.oneofs[i].fields)
  {
    hide IsUtf8, OfOneof, OneofFields, Entry, ConvertedAll, SelfPath, Members, MapFields;
    var mapFields := MapFields(SelfPath(path, m.name), m.maps);
    OneofFieldsOf(m.oneofs, i);
    OfOneofNone(m.fields, i);
    OfOneofNone(mapFields, i);
    OfOneofAppend(OneofFields(m.oneofs), m.fields, i);
    OfOneofAppend(OneofFields(m.oneofs) + m.fields, mapFields, i);
  }

  // ------------------------------------------------------------------ the parts, written out

  /** The field has these parts and no others. */
  predicate FieldIs(f: D.FieldDescriptor, name: bytes, number: i32, fieldLabel: D.Label, ty: D.FieldType,
                    typeName: Option<bytes>) {
    && f.name.Some? && f.name.value == name && f.number == Some(number) && f.fieldLabel == Some(fieldLabel)
    && f.ty == Some(ty) && (f.typeName.Some? <==> typeName.Some?)
    && (f.typeName.Some? ==> f.typeName.value == typeName.value)
    && f.extendee.None? && f.defaultValue.None? && f.oneofIndex.None? && f.jsonName.None? && f.options.None?
    && f.proto3Optional.None?
  }

  /**
   * A map `m` of a message becomes a repeated field of the message type `.self.mEntry`, and a nested message `mEntry`
   * with the option 7 set and two optional fields: `key`, number 1, and `value`, number 2.
   */
  lemma MapWritten(m: Ast, path: Str, i: nat)
    requires i < |m.maps|
    ensures var (d, map_) := (Converted(m, path), m.maps[i]);
            var self := if |path| == 0 then m.name else path + [46] + m.name;
            var entry := map_.name + [69, 110, 116, 114, 121];
            var at := |d.field| - |m.maps| + i;
            && 0 <= at < |d.field| && i < |d.nestedType|
            && FieldIs(d.field[at], map_.name, map_.number, D.Repeated, D.MessageType, Some([46] + self + [46] + entry))
            && var e := d.nestedType[i];
               && e.name.Some? && e.name.value == entry && e.options == Some([56, 1])
               && |e.field| == 2
               && FieldIs(e.field[0], [107, 101, 121], 1, D.Optional, map_.keyType, AsBytes(map_.keyName))
               && FieldIs(e.field[1], [118, 97, 108, 117, 101], 2, D.Optional, map_.valueType, AsBytes(map_.valueName))
               && |e.extension| == 0 && |e.nestedType| == 0 && |e.enumType| == 0 && |e.extensionRange| == 0
               && |e.oneofDecl| == 0 && |e.reservedRange| == 0 && |e.reservedName| == 0
  {
    hide IsUtf8, OneofFields, ConvertedAll, Entry, MapFieldOf;
    EntryPlace(m, path, i);
    EntryWritten(m.maps[i]);
    MapFieldWritten(SelfPath(path, m.name), m.maps[i]);
    var fields := MapFields(SelfPath(path, m.name), m.maps);
    assert Converted(m, path).field == OneofFields(m.oneofs) + m.fields + fields;
  }

  function AsBytes(t: Option<Str>): Option<bytes> {
    if t.None? then None else Some(t.value)
  }

  lemma EntryWritten(map_: MapField)
    ensures var e := Entry(map_);
            && e.name.Some? && e.name.value == map_.name + [69, 110, 116, 114, 121] && e.options == Some([56, 1])
            && |e.field| == 2
            && FieldIs(e.field[0], [107, 101, 121], 1, D.Optional, map_.keyType, AsBytes(map_.keyName))
            && FieldIs(e.field[1], [118, 97, 108, 117, 101], 2, D.Optional, map_.valueType, AsBytes(map_.valueName))
            && |e.extension| == 0 && |e.nestedType| == 0 && |e.enumType| == 0 && |e.extensionRange| == 0
            && |e.oneofDecl| == 0 && |e.reservedRange| == 0 && |e.reservedName| == 0
  {
    hide IsUtf8;
  }

  lemma MapFieldWritten(self: Str, map_: MapField)
    ensures FieldIs(MapFieldOf(self, map_), map_.name, map_.number, D.Repeated, D.MessageType,
                    Some([46] + self + [46] + (map_.name + [69, 110, 116, 114, 121])))
  {
    hide IsUtf8;
  }

  lemma ConvertedParts(m: Ast, path: Str)
    ensures var d := Converted(m, path);
            && d.name == Some(m.name) && d.field == OneofFields(m.oneofs) + m.fields + MapFields(SelfPath(path, m.name), m.maps)
            && |d.nestedType| == |m.maps| + |m.nested|
            && d.extension == m.extensions && d.enumType == m.enums && d.extensionRange == m.extensionRanges
            && d.options == None && d.reservedRange == m.reservedRanges && d.reservedName == m.reservedNames
  {
    hide IsUtf8, OneofFields, ConvertedAll, Entry, MapFieldOf, MapFields, Entries, SelfPath, OneofDecls;
  }

  /** The other fields follow the members of the oneofs unchanged, and the nested messages the entries of the maps. */
  lemma FieldsWritten(m: Ast, path: Str, k: nat)
    ensures var d := Converted(m, path);
            var from := |d.field| - |m.maps| - |m.fields|;
            && d.name == Some(m.name) && 0 <= from
            && (k < |m.fields| ==> d.field[from + k] == m.fields[k])
            && |d.nestedType| == |m.maps| + |m.nested|
            && (k < |m.nested| ==> d.nestedType[|m.maps| + k] == Converted(m.nested[k], SelfPath(path, m.name)))
            && d.extension == m.extensions && d.enumType == m.enums && d.extensionRange == m.extensionRanges
            && d.options == None && d.reservedRange == m.reservedRanges && d.reservedName == m.reservedNames
  {
    hide IsUtf8, OneofFields, Converted, MapFieldOf, MapFields, SelfPath;
    ConvertedParts(m, path);
    if k < |m.nested| { NestedPlace(m, path, k); }
    InMiddle(OneofFields(m.oneofs), m.fields, MapFields(SelfPath(path, m.name), m.maps), k);
  }

  lemma InMiddle<T>(a: seq<T>, b: seq<T>, c: seq<T>, k: nat)
    ensures k < |b| ==> (a + b + c)[|a| + k] == b[k]
  {
  }

  /** A member of a oneof keeps all but three things: its oneof is set, its label is optional, its presence mark gone. */
  lemma MemberWritten(m: Ast, path: Str, i: nat, k: nat)
    requires i < |m.oneofs| <= HALF32 && OutsideOneof(m.fields, i) && k < |m.oneofs[i].fields|
    ensures var (members, f) := (OfOneof(Converted(m, path).field, i), m.oneofs[i].fields[k]);
            && |members| == |m.oneofs[i].fields|
            && members[k] == f.(oneofIndex := members[k].oneofIndex, fieldLabel := Some(D.Optional), proto3Optional := None)
            && members[k].oneofIndex.Some? && members[k].oneofIndex.value == i
  {
    hide IsUtf8, OfOneof, Converted, OutsideOneof;
    OneofMembers(m, path, i);
  }

  method ConvertOneofs(os: seq<Oneof>) returns (decls: seq<D.OneofDescriptor>, fields: seq<D.FieldDescriptor>)
    ensures decls == OneofDecls(os) && fields == OneofFields(os)
  {
    hide Member, IsUtf8;
    decls, fields := [], [];
    var i := 0;
    while i < |os|
      invariant 0 <= i <= |os| && decls == OneofDecls(os[..i]) && fields == OneofFields(os[..i])
    {
      decls := decls + [D.OneofDescriptor(Some(os[i].name), None)];
      ghost var before := fields;
      var fs := os[i].fields;
      var k := 0;
      while k < |fs|
        invariant 0 <= k <= |fs| && fields == before + Members(i, fs[..k])
      {
        fields := fields + [Member(i, fs[k])];
        assert Members(i, fs[..k + 1]) == Members(i, fs[..k]) + [Member(i, fs[k])];
        k := k + 1;
      }
      assert fs[..|fs|] == fs;
      assert os[..i + 1][..i] == os[..i];
      i := i + 1;
    }
    assert os[..|os|] == os;
  }

  /** `convert_message` */
  method ConvertMessage(m: Ast, pathPrefix: Str) returns (out: D.MessageDescriptor)
    ensures out == Converted(m, pathPrefix)
    decreases m, 2
  {
    hide IsUtf8, MapFieldOf, Entry, ConvertedAll, OneofFields, OneofDecls;
    var selfPath := SelfPath(pathPrefix, m.name);
    var decls, fields := ConvertOneofs(m.oneofs);
    fields := fields + m.fields;
    var entries: seq<D.MessageDescriptor> := [];
    ghost var before, mapFields := fields, MapFields(selfPath, m.maps);
    var i := 0;
    while i < |m.maps|
      invariant 0 <= i <= |m.maps|
      invariant fields == before + mapFields[..i] && entries == Entries(m.maps)[..i]
    {
      entries := entries + [Entry(m.maps[i])];
      fields := fields + [MapFieldOf(selfPath, m.maps[i])];
      i := i + 1;
    }
    assert mapFields[..|m.maps|] == mapFields && Entries(m.maps)[..|m.maps|] == Entries(m.maps);
    var nested := ConvertMessages(m.nested, selfPath);
    out := D.MessageDescriptor(Some(m.name), fields, m.extensions, entries + nested, m.enums, m.extensionRanges,
                               decls, None, m.reservedRanges, m.reservedNames);
  }

  method ConvertMessages(ms: seq<Ast>, path: Str) returns (out: seq<D.MessageDescriptor>)
    ensures out == ConvertedAll(ms, path)
    decreases ms, 3
  {
    hide IsUtf8, Converted;
    out := [];
    var i := 0;
    while i < |ms|
      invariant 0 <= i <= |ms| && out == ConvertedAll(ms[..i], path)
    {
      var m := ConvertMessage(ms[i], path);
      out := out + [m];
      assert ms[..i + 1][..i] == ms[..i];
      i := i + 1;
    }
    assert ms[..|ms|] == ms;
  }
}
