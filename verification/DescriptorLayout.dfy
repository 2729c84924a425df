/**
 * What the field list of a message means: every entry is one the decoder knows, storing the entries of `b` one after
 * the other into `a` merges `b` into `a`, and nesting is bounded.
 */
module DescriptorLayout {
  import opened Wrappers
  import opened WireBasics
  import opened Descriptor

  // -------------------------------------------------------------------- storing a list

  predicate AllProduced(k: Kind, items: seq<Item>) {
    forall i :: 0 <= i < |items| ==> Produces(Row(k, items[i].field), items[i].value)
  }

  function PutAll(m: Message, items: seq<Item>): (r: Message)
    requires AllProduced(KindOf(m), items)
    ensures KindOf(r) == KindOf(m)
    decreases |items|
  {
    if items == [] then m else PutAll(Put(m, items[0].field, items[0].value), items[1..])
  }

  lemma {:induction false} PutAllConcat(m: Message, a: seq<Item>, b: seq<Item>)
    requires AllProduced(KindOf(m), a) && AllProduced(KindOf(m), b)
    ensures AllProduced(KindOf(m), a + b)
    ensures PutAll(m, a + b) == PutAll(PutAll(m, a), b)
    decreases |a|
  {
    if a == [] {
      assert a + b == b;
    } else {
      assert (a + b)[1..] == a[1..] + b;
      PutAllConcat(Put(m, a[0].field, a[0].value), a[1..], b);
    }
  }

  lemma {:induction false} EachProduced<T>(k: Kind, n: u32, xs: seq<T>, f: T -> Value)
    requires forall x :: x in xs ==> Produces(Row(k, n), f(x))
    ensures AllProduced(k, Each(n, xs, f)) && |Each(n, xs, f)| == |xs|
  {
    if xs != [] { EachProduced(k, n, xs[1..], f); }
  }

  /** Storing a repeated field appends to the list that `at` puts into the message. */
  lemma {:induction false} PutEach<T>(n: u32, xs: seq<T>, f: T -> Value, at: seq<T> -> Message, acc: seq<T>)
    requires forall done, x :: x in xs ==>
               Produces(Row(KindOf(at(done)), n), f(x)) && Put(at(done), n, f(x)) == at(done + [x])
    ensures AllProduced(KindOf(at(acc)), Each(n, xs, f))
    ensures PutAll(at(acc), Each(n, xs, f)) == at(acc + xs)
    decreases |xs|
  {
    EachProduced(KindOf(at(acc)), n, xs, f);
    if xs == [] {
      assert acc + xs == acc;
    } else {
      PutEach(n, xs[1..], f, at, acc + [xs[0]]);
      assert acc + xs == acc + [xs[0]] + xs[1..];
      assert Each(n, xs, f)[1..] == Each(n, xs[1..], f);
    }
  }

  // -------------------------------------------------------------------------- merging

  function Later<T>(a: Option<T>, b: Option<T>): Option<T> {
    if b.Some? then b else a
  }

  function LaterInt(a: i32, b: i32): i32 {
    if b != 0 then b else a
  }

  /**
   * `b` merged into `a`: lists are appended, singular fields are taken from `b` when it has them. A zero bound of a
   * range counts as absent.
   */
  function Merged(a: Message, b: Message): (r: Message)
    requires KindOf(a) == KindOf(b)
    ensures KindOf(r) == KindOf(a)
  {
    match a
    case SetMsg(x) => SetMsg(FileDescriptorSet(x.file + b.set_.file))
    case FileMsg(x) => var y := b.file; FileMsg(FileDescriptor(
      Later(x.name, y.name), Later(x.package, y.package), x.dependency + y.dependency,
      x.publicDependency + y.publicDependency, x.weakDependency + y.weakDependency, x.messageType + y.messageType,
      x.enumType + y.enumType, x.service + y.service, x.extension + y.extension, Later(x.options, y.options),
      Later(x.sourceCodeInfo, y.sourceCodeInfo), Later(x.syntax, y.syntax)))
    case SourceMsg(x) => SourceMsg(SourceCodeInfo(x.locations + b.source.locations))
    case LocationMsg(x) => var y := b.location; LocationMsg(Location(
      x.path + y.path, x.span + y.span, Later(x.leadingComments, y.leadingComments),
      Later(x.trailingComments, y.trailingComments), x.leadingDetachedComments + y.leadingDetachedComments))
    case DescriptorMsg(x) => var y := b.d; DescriptorMsg(MessageDescriptor(
      Later(x.name, y.name), x.field + y.field, x.extension + y.extension, x.nestedType + y.nestedType,
      x.enumType + y.enumType, x.extensionRange + y.extensionRange, x.oneofDecl + y.oneofDecl,
      Later(x.options, y.options), x.reservedRange + y.reservedRange, x.reservedName + y.reservedName))
    case FieldMsg(x) => var y := b.f; FieldMsg(FieldDescriptor(
      Later(x.name, y.name), Later(x.number, y.number), Later(x.fieldLabel, y.fieldLabel), Later(x.ty, y.ty),
      Later(x.typeName, y.typeName), Later(x.extendee, y.extendee), Later(x.defaultValue, y.defaultValue),
      Later(x.oneofIndex, y.oneofIndex), Later(x.jsonName, y.jsonName), Later(x.options, y.options),
      Later(x.proto3Optional, y.proto3Optional)))
    case EnumMsg(x) => var y := b.e; EnumMsg(EnumDescriptor(
      Later(x.name, y.name), x.value + y.value, Later(x.options, y.options), x.reservedRange + y.reservedRange,
      x.reservedName + y.reservedName))
    case EnumValueMsg(x) => var y := b.ev; EnumValueMsg(EnumValueDescriptor(
      Later(x.name, y.name), Later(x.number, y.number), Later(x.options, y.options)))
    case OneofMsg(x) => var y := b.o; OneofMsg(OneofDescriptor(
      Later(x.name, y.name), Later(x.options, y.options)))
    case ReservedMsg(x) => ReservedMsg(ReservedRange(LaterInt(x.start, b.rr.start), LaterInt(x.end, b.rr.end)))
    case ExtensionRangeMsg(x) =>
      ExtensionRangeMsg(ExtensionRange(LaterInt(x.start, b.er.start), LaterInt(x.end, b.er.end)))
    case ServiceMsg(x) => var y := b.s; ServiceMsg(ServiceDescriptor(
      Later(x.name, y.name), x.methods + y.methods, Later(x.options, y.options)))
    case MethodMsg(x) => var y := b.m; MethodMsg(MethodDescriptor(
      Later(x.name, y.name), Later(x.inputType, y.inputType), Later(x.outputType, y.outputType),
      Later(x.options, y.options), Later(x.clientStreaming, y.clientStreaming),
      Later(x.serverStreaming, y.serverStreaming)))
  }

  lemma MergedIntoDefault(m: Message)
    ensures Merged(Default(KindOf(m)), m) == m
  {
  }

  /** `items` is known to the decoder of kind `k`, and storing it into `a` gives `c`. */
  ghost predicate Stores(a: Message, items: seq<Item>, c: Message) {
    AllProduced(KindOf(a), items) && PutAll(a, items) == c
  }

  lemma StoresConcat(a: Message, xs: seq<Item>, b: Message, ys: seq<Item>, c: Message)
    requires Stores(a, xs, b) && Stores(b, ys, c)
    ensures Stores(a, xs + ys, c)
  {
    PutAllConcat(a, xs, ys);
  }

  lemma StoresOne(a: Message, it: Item)
    requires Produces(Row(KindOf(a), it.field), it.value)
    ensures Stores(a, [it], Put(a, it.field, it.value))
  {
    assert [it][1..] == [];
    assert PutAll(a, [it]) == PutAll(Put(a, it.field, it.value), []);
  }

  lemma StoresNone(a: Message)
    ensures Stores(a, [], a)
  {
  }

  lemma StoresEach<T>(n: u32, xs: seq<T>, f: T -> Value, at: seq<T> -> Message, acc: seq<T>)
    requires forall done, x :: x in xs ==>
               Produces(Row(KindOf(at(done)), n), f(x)) && Put(at(done), n, f(x)) == at(done + [x])
    ensures Stores(at(acc), Each(n, xs, f), at(acc + xs))
  {
    PutEach(n, xs, f, at, acc);
  }

  /** Storing the fields of `b` into `a` is merging `b` into `a`: last one wins, lists append. */
  lemma StoresItems(a: Message, b: Message)
    requires KindOf(a) == KindOf(b)
    ensures Stores(a, Items(b), Merged(a, b))
  {
    match a {
      case SetMsg(x) =>
        StoresEach(1, b.set_.file, OfFile, acc => SetMsg(FileDescriptorSet(acc)), x.file);
      case FileMsg(x) => StoresFile(x, b.file);
      case SourceMsg(x) =>
        StoresEach(1, b.source.locations, OfLocation, acc => SourceMsg(SourceCodeInfo(acc)), x.locations);
      case LocationMsg(x) => StoresLocation(x, b.location);
      case DescriptorMsg(x) => StoresDescriptor(x, b.d);
      case FieldMsg(x) => StoresField(x, b.f);
      case EnumMsg(x) => StoresEnum(x, b.e);
      case EnumValueMsg(x) => StoresEnumValue(x, b.ev);
      case OneofMsg(x) => StoresOneof(x, b.o);
      case ReservedMsg(x) => StoresReserved(x, b.rr);
      case ExtensionRangeMsg(x) => StoresExtensionRange(x, b.er);
      case ServiceMsg(x) => StoresService(x, b.s);
      case MethodMsg(x) => StoresMethod(x, b.m);
    }
  }

  /** Extends a stored prefix by an optional field: nothing, or one entry. */
  lemma ThenOpt(a: Message, done: seq<Item>, b: Message, more: seq<Item>, c: Message)
    requires Stores(a, done, b)
    requires |more| <= 1
    requires if more == [] then c == b
             else Produces(Row(KindOf(b), more[0].field), more[0].value) && c == Put(b, more[0].field, more[0].value)
    ensures Stores(a, done + more, c)
    ensures done == [] ==> Stores(a, more, c)
  {
    if more == [] {
      assert done + more == done;
    } else {
      StoresOne(b, more[0]);
      assert more == [more[0]];
      StoresConcat(a, done, b, more, c);
    }
    if done == [] { assert done + more == more; }
  }

  /** Extends a stored prefix by a repeated field. */
  lemma ThenEach<T>(a: Message, done: seq<Item>, n: u32, xs: seq<T>, f: T -> Value, at: seq<T> -> Message, acc: seq<T>)
    requires Stores(a, done, at(acc))
    requires forall list, x :: x in xs ==>
               Produces(Row(KindOf(at(list)), n), f(x)) && Put(at(list), n, f(x)) == at(list + [x])
    ensures Stores(a, done + Each(n, xs, f), at(acc + xs))
    ensures done == [] ==> Stores(a, Each(n, xs, f), at(acc + xs))
  {
    StoresEach(n, xs, f, at, acc);
    StoresConcat(a, done, at(acc), Each(n, xs, f), at(acc + xs));
    if done == [] { assert done + Each(n, xs, f) == Each(n, xs, f); }
  }

  lemma StoresFile1(a: Message, done: seq<Item>, x: FileDescriptor, y: FileDescriptor)
    requires Stores(a, done, FileMsg(x))
    ensures Stores(a, done + OptStr(1, y.name) + OptStr(2, y.package) + Each(3, y.dependency, OfStr),
              FileMsg(x.(name := Later(x.name, y.name), package := Later(x.package, y.package),
                    dependency := x.dependency + y.dependency)))
  {
    hide Stores, PutAll, AllProduced;
    var s1, x1 := done + OptStr(1, y.name), x.(name := Later(x.name, y.name));
    assert Stores(a, s1, FileMsg(x1)) by {
      ThenOpt(a, done, FileMsg(x), OptStr(1, y.name), FileMsg(x1));
    }
    var s2, x2 := s1 + OptStr(2, y.package), x1.(package := Later(x1.package, y.package));
    assert Stores(a, s2, FileMsg(x2)) by {
      ThenOpt(a, s1, FileMsg(x1), OptStr(2, y.package), FileMsg(x2));
    }
    var s3, x3 := s2 + Each(3, y.dependency, OfStr), x2.(dependency := x2.dependency + y.dependency);
    assert Stores(a, s3, FileMsg(x3)) by {
      ThenEach(a, s2, 3, y.dependency, OfStr, acc => FileMsg(x2.(dependency := acc)), x2.dependency);
    }
  }

  lemma StoresFilePublicDependency(a: Message, done: seq<Item>, x: FileDescriptor, y: FileDescriptor)
    requires Stores(a, done, FileMsg(x))
    ensures Stores(a, done + Each(10, y.publicDependency, OfInt), FileMsg(x.(publicDependency := x.publicDependency + y.publicDependency)))
  {
    hide Stores, PutAll, AllProduced;
    ThenEach(a, done, 10, y.publicDependency, OfInt, acc => FileMsg(x.(publicDependency := acc)), x.publicDependency);
  }

  lemma StoresFileWeakDependency(a: Message, done: seq<Item>, x: FileDescriptor, y: FileDescriptor)
    requires Stores(a, done, FileMsg(x))
    ensures Stores(a, done + Each(11, y.weakDependency, OfInt), FileMsg(x.(weakDependency := x.weakDependency + y.weakDependency)))
  {
    hide Stores, PutAll, AllProduced;
    ThenEach(a, done, 11, y.weakDependency, OfInt, acc => FileMsg(x.(weakDependency := acc)), x.weakDependency);
  }

  lemma StoresFileMessageType(a: Message, done: seq<Item>, x: FileDescriptor, y: FileDescriptor)
    requires Stores(a, done, FileMsg(x))
    ensures Stores(a, done + Each(4, y.messageType, OfDescriptor), FileMsg(x.(messageType := x.messageType + y.messageType)))
  {
    hide Stores, PutAll, AllProduced;
    ThenEach(a, done, 4, y.messageType, OfDescriptor, acc => FileMsg(x.(messageType := acc)), x.messageType);
  }

  lemma StoresFile2(a: Message, done: seq<Item>, x: FileDescriptor, y: FileDescriptor)
    requires Stores(a, done, FileMsg(x))
    ensures Stores(a, done + Each(10, y.publicDependency, OfInt) + Each(11, y.weakDependency, OfInt) +
              Each(4, y.messageType, OfDescriptor),
              FileMsg(x.(publicDependency := x.publicDependency + y.publicDependency,
                    weakDependency := x.weakDependency + y.weakDependency,
                    messageType := x.messageType + y.messageType)))
  {
    hide Stores, PutAll, AllProduced;
    var s1, x1 := done + Each(10, y.publicDependency, OfInt), x.(publicDependency := x.publicDependency + y.publicDependency);
    StoresFilePublicDependency(a, done, x, y);
    var s2, x2 := s1 + Each(11, y.weakDependency, OfInt), x1.(weakDependency := x1.weakDependency + y.weakDependency);
    StoresFileWeakDependency(a, s1, x1, y);
    var s3, x3 := s2 + Each(4, y.messageType, OfDescriptor), x2.(messageType := x2.messageType + y.messageType);
    StoresFileMessageType(a, s2, x2, y);
  }

  lemma StoresFileEnumType(a: Message, done: seq<Item>, x: FileDescriptor, y: FileDescriptor)
    requires Stores(a, done, FileMsg(x))
    ensures Stores(a, done + Each(5, y.enumType, OfEnum), FileMsg(x.(enumType := x.enumType + y.enumType)))
  {
    hide Stores, PutAll, AllProduced;
    ThenEach(a, done, 5, y.enumType, OfEnum, acc => FileMsg(x.(enumType := acc)), x.enumType);
  }

  lemma StoresFileService(a: Message, done: seq<Item>, x: FileDescriptor, y: FileDescriptor)
    requires Stores(a, done, FileMsg(x))
    ensures Stores(a, done + Each(6, y.service, OfService), FileMsg(x.(service := x.service + y.service)))
  {
    hide Stores, PutAll, AllProduced;
    ThenEach(a, done, 6, y.service, OfService, acc => FileMsg(x.(service := acc)), x.service);
  }

  lemma StoresFileExtension(a: Message, done: seq<Item>, x: FileDescriptor, y: FileDescriptor)
    requires Stores(a, done, FileMsg(x))
    ensures Stores(a, done + Each(7, y.extension, OfField), FileMsg(x.(extension := x.extension + y.extension)))
  {
    hide Stores, PutAll, AllProduced;
    ThenEach(a, done, 7, y.extension, OfField, acc => FileMsg(x.(extension := acc)), x.extension);
  }

  lemma StoresFile3(a: Message, done: seq<Item>, x: FileDescriptor, y: FileDescriptor)
    requires Stores(a, done, FileMsg(x))
    ensures Stores(a, done + Each(5, y.enumType, OfEnum) + Each(6, y.service, OfService) +
              Each(7, y.extension, OfField),
              FileMsg(x.(enumType := x.enumType + y.enumType, service := x.service + y.service,
                    extension := x.extension + y.extension)))
  {
    hide Stores, PutAll, AllProduced;
    var s1, x1 := done + Each(5, y.enumType, OfEnum), x.(enumType := x.enumType + y.enumType);
    StoresFileEnumType(a, done, x, y);
    var s2, x2 := s1 + Each(6, y.service, OfService), x1.(service := x1.service + y.service);
    StoresFileService(a, s1, x1, y);
    var s3, x3 := s2 + Each(7, y.extension, OfField), x2.(extension := x2.extension + y.extension);
    StoresFileExtension(a, s2, x2, y);
  }

  lemma StoresFile4(a: Message, done: seq<Item>, x: FileDescriptor, y: FileDescriptor)
    requires Stores(a, done, FileMsg(x))
    ensures Stores(a, done + OptBytes(8, y.options) + SourceItems(y.sourceCodeInfo) + OptStr(12, y.syntax),
              FileMsg(x.(options := Later(x.options, y.options),
                    sourceCodeInfo := Later(x.sourceCodeInfo, y.sourceCodeInfo),
                    syntax := Later(x.syntax, y.syntax))))
  {
    hide Stores, PutAll, AllProduced;
    var s1, x1 := done + OptBytes(8, y.options), x.(options := Later(x.options, y.options));
    assert Stores(a, s1, FileMsg(x1)) by {
      ThenOpt(a, done, FileMsg(x), OptBytes(8, y.options), FileMsg(x1));
    }
    var s2, x2 := s1 + SourceItems(y.sourceCodeInfo), x1.(sourceCodeInfo := Later(x1.sourceCodeInfo, y.sourceCodeInfo));
    assert Stores(a, s2, FileMsg(x2)) by {
      ThenOpt(a, s1, FileMsg(x1), SourceItems(y.sourceCodeInfo), FileMsg(x2));
    }
    var s3, x3 := s2 + OptStr(12, y.syntax), x2.(syntax := Later(x2.syntax, y.syntax));
    assert Stores(a, s3, FileMsg(x3)) by {
      ThenOpt(a, s2, FileMsg(x2), OptStr(12, y.syntax), FileMsg(x3));
    }
  }

  lemma StoresFile(x: FileDescriptor, y: FileDescriptor)
    ensures Stores(FileMsg(x), Items(FileMsg(y)), Merged(FileMsg(x), FileMsg(y)))
  {
    hide Stores, PutAll, AllProduced;
    var a := FileMsg(x);
    StoresNone(a);
    StoresFile1(a, [], x, y);
    var s1 := [] + OptStr(1, y.name) + OptStr(2, y.package) + Each(3, y.dependency, OfStr);
    var x1 := x.(name := Later(x.name, y.name), package := Later(x.package, y.package),
      dependency := x.dependency + y.dependency);
    StoresFile2(a, s1, x1, y);
    var s2 := s1 + Each(10, y.publicDependency, OfInt) + Each(11, y.weakDependency, OfInt) +
      Each(4, y.messageType, OfDescriptor);
    var x2 := x1.(publicDependency := x1.publicDependency + y.publicDependency,
      weakDependency := x1.weakDependency + y.weakDependency, messageType := x1.messageType + y.messageType);
    StoresFile3(a, s2, x2, y);
    var s3 := s2 + Each(5, y.enumType, OfEnum) + Each(6, y.service, OfService) + Each(7, y.extension, OfField);
    var x3 := x2.(enumType := x2.enumType + y.enumType, service := x2.service + y.service,
      extension := x2.extension + y.extension);
    StoresFile4(a, s3, x3, y);
    assert [] + OptStr(1, y.name) == OptStr(1, y.name);
  }

  lemma StoresLocation1(a: Message, done: seq<Item>, x: Location, y: Location)
    requires Stores(a, done, LocationMsg(x))
    ensures Stores(a, done + Each(1, y.path, OfInt) + Each(2, y.span, OfInt) + OptStr(3, y.leadingComments),
              LocationMsg(x.(path := x.path + y.path, span := x.span + y.span,
                    leadingComments := Later(x.leadingComments, y.leadingComments))))
  {
    hide Stores, PutAll, AllProduced;
    var s1, x1 := done + Each(1, y.path, OfInt), x.(path := x.path + y.path);
    assert Stores(a, s1, LocationMsg(x1)) by {
      ThenEach(a, done, 1, y.path, OfInt, acc => LocationMsg(x.(path := acc)), x.path);
    }
    var s2, x2 := s1 + Each(2, y.span, OfInt), x1.(span := x1.span + y.span);
    assert Stores(a, s2, LocationMsg(x2)) by {
      ThenEach(a, s1, 2, y.span, OfInt, acc => LocationMsg(x1.(span := acc)), x1.span);
    }
    var s3, x3 := s2 + OptStr(3, y.leadingComments), x2.(leadingComments := Later(x2.leadingComments, y.leadingComments));
    assert Stores(a, s3, LocationMsg(x3)) by {
      ThenOpt(a, s2, LocationMsg(x2), OptStr(3, y.leadingComments), LocationMsg(x3));
    }
  }

  lemma StoresLocation2(a: Message, done: seq<Item>, x: Location, y: Location)
    requires Stores(a, done, LocationMsg(x))
    ensures Stores(a, done + OptStr(4, y.trailingComments) + Each(6, y.leadingDetachedComments, OfStr),
              LocationMsg(x.(trailingComments := Later(x.trailingComments, y.trailingComments),
                    leadingDetachedComments := x.leadingDetachedComments + y.leadingDetachedComments)))
  {
    hide Stores, PutAll, AllProduced;
    var s1, x1 := done + OptStr(4, y.trailingComments), x.(trailingComments := Later(x.trailingComments, y.trailingComments));
    assert Stores(a, s1, LocationMsg(x1)) by {
      ThenOpt(a, done, LocationMsg(x), OptStr(4, y.trailingComments), LocationMsg(x1));
    }
    var s2, x2 := s1 + Each(6, y.leadingDetachedComments, OfStr), x1.(leadingDetachedComments := x1.leadingDetachedComments + y.leadingDetachedComments);
    assert Stores(a, s2, LocationMsg(x2)) by {
      ThenEach(a, s1, 6, y.leadingDetachedComments, OfStr, acc => LocationMsg(x1.(leadingDetachedComments := acc)), x1.leadingDetachedComments);
    }
  }

  lemma StoresLocation(x: Location, y: Location)
    ensures Stores(LocationMsg(x), Items(LocationMsg(y)), Merged(LocationMsg(x), LocationMsg(y)))
  {
    hide Stores, PutAll, AllProduced;
    var a := LocationMsg(x);
    StoresNone(a);
    StoresLocation1(a, [], x, y);
    var s1 := [] + Each(1, y.path, OfInt) + Each(2, y.span, OfInt) + OptStr(3, y.leadingComments);
    var x1 := x.(path := x.path + y.path, span := x.span + y.span,
      leadingComments := Later(x.leadingComments, y.leadingComments));
    StoresLocation2(a, s1, x1, y);
    assert [] + Each(1, y.path, OfInt) == Each(1, y.path, OfInt);
  }

  lemma StoresMessageField(a: Message, done: seq<Item>, x: MessageDescriptor, y: MessageDescriptor)
    requires Stores(a, done, DescriptorMsg(x))
    ensures Stores(a, done + Each(2, y.field, OfField), DescriptorMsg(x.(field := x.field + y.field)))
  {
    hide Stores, PutAll, AllProduced;
    ThenEach(a, done, 2, y.field, OfField, acc => DescriptorMsg(x.(field := acc)), x.field);
  }

  lemma StoresMessageExtension(a: Message, done: seq<Item>, x: MessageDescriptor, y: MessageDescriptor)
    requires Stores(a, done, DescriptorMsg(x))
    ensures Stores(a, done + Each(6, y.extension, OfField), DescriptorMsg(x.(extension := x.extension + y.extension)))
  {
    hide Stores, PutAll, AllProduced;
    ThenEach(a, done, 6, y.extension, OfField, acc => DescriptorMsg(x.(extension := acc)), x.extension);
  }

  lemma StoresDescriptor1(a: Message, done: seq<Item>, x: MessageDescriptor, y: MessageDescriptor)
    requires Stores(a, done, DescriptorMsg(x))
    ensures Stores(a, done + OptStr(1, y.name) + Each(2, y.field, OfField) + Each(6, y.extension, OfField),
              DescriptorMsg(x.(name := Later(x.name, y.name), field := x.field + y.field,
                    extension := x.extension + y.extension)))
  {
    hide Stores, PutAll, AllProduced;
    var s1, x1 := done + OptStr(1, y.name), x.(name := Later(x.name, y.name));
    assert Stores(a, s1, DescriptorMsg(x1)) by {
      ThenOpt(a, done, DescriptorMsg(x), OptStr(1, y.name), DescriptorMsg(x1));
    }
    var s2, x2 := s1 + Each(2, y.field, OfField), x1.(field := x1.field + y.field);
    StoresMessageField(a, s1, x1, y);
    var s3, x3 := s2 + Each(6, y.extension, OfField), x2.(extension := x2.extension + y.extension);
    StoresMessageExtension(a, s2, x2, y);
  }

  lemma StoresMessageNestedType(a: Message, done: seq<Item>, x: MessageDescriptor, y: MessageDescriptor)
    requires Stores(a, done, DescriptorMsg(x))
    ensures Stores(a, done + Each(3, y.nestedType, OfDescriptor), DescriptorMsg(x.(nestedType := x.nestedType + y.nestedType)))
  {
    hide Stores, PutAll, AllProduced;
    ThenEach(a, done, 3, y.nestedType, OfDescriptor, acc => DescriptorMsg(x.(nestedType := acc)), x.nestedType);
  }

  lemma StoresMessageEnumType(a: Message, done: seq<Item>, x: MessageDescriptor, y: MessageDescriptor)
    requires Stores(a, done, DescriptorMsg(x))
    ensures Stores(a, done + Each(4, y.enumType, OfEnum), DescriptorMsg(x.(enumType := x.enumType + y.enumType)))
  {
    hide Stores, PutAll, AllProduced;
    ThenEach(a, done, 4, y.enumType, OfEnum, acc => DescriptorMsg(x.(enumType := acc)), x.enumType);
  }

  lemma StoresMessageExtensionRange(a: Message, done: seq<Item>, x: MessageDescriptor, y: MessageDescriptor)
    requires Stores(a, done, DescriptorMsg(x))
    ensures Stores(a, done + Each(5, y.extensionRange, OfExtensionRange), DescriptorMsg(x.(extensionRange := x.extensionRange + y.extensionRange)))
  {
    hide Stores, PutAll, AllProduced;
    ThenEach(a, done, 5, y.extensionRange, OfExtensionRange, acc => DescriptorMsg(x.(extensionRange := acc)), x.extensionRange);
  }

  lemma StoresDescriptor2(a: Message, done: seq<Item>, x: MessageDescriptor, y: MessageDescriptor)
    requires Stores(a, done, DescriptorMsg(x))
    ensures Stores(a, done + Each(3, y.nestedType, OfDescriptor) + Each(4, y.enumType, OfEnum) +
              Each(5, y.extensionRange, OfExtensionRange),
              DescriptorMsg(x.(nestedType := x.nestedType + y.nestedType, enumType := x.enumType + y.enumType,
                    extensionRange := x.extensionRange + y.extensionRange)))
  {
    hide Stores, PutAll, AllProduced;
    var s1, x1 := done + Each(3, y.nestedType, OfDescriptor), x.(nestedType := x.nestedType + y.nestedType);
    StoresMessageNestedType(a, done, x, y);
    var s2, x2 := s1 + Each(4, y.enumType, OfEnum), x1.(enumType := x1.enumType + y.enumType);
    StoresMessageEnumType(a, s1, x1, y);
    var s3, x3 := s2 + Each(5, y.extensionRange, OfExtensionRange), x2.(extensionRange := x2.extensionRange + y.extensionRange);
    StoresMessageExtensionRange(a, s2, x2, y);
  }

  lemma StoresMessageOneofDecl(a: Message, done: seq<Item>, x: MessageDescriptor, y: MessageDescriptor)
    requires Stores(a, done, DescriptorMsg(x))
    ensures Stores(a, done + Each(8, y.oneofDecl, OfOneof), DescriptorMsg(x.(oneofDecl := x.oneofDecl + y.oneofDecl)))
  {
    hide Stores, PutAll, AllProduced;
    ThenEach(a, done, 8, y.oneofDecl, OfOneof, acc => DescriptorMsg(x.(oneofDecl := acc)), x.oneofDecl);
  }

  lemma StoresMessageReservedRange(a: Message, done: seq<Item>, x: MessageDescriptor, y: MessageDescriptor)
    requires Stores(a, done, DescriptorMsg(x))
    ensures Stores(a, done + Each(9, y.reservedRange, OfReserved), DescriptorMsg(x.(reservedRange := x.reservedRange + y.reservedRange)))
  {
    hide Stores, PutAll, AllProduced;
    ThenEach(a, done, 9, y.reservedRange, OfReserved, acc => DescriptorMsg(x.(reservedRange := acc)), x.reservedRange);
  }

  lemma StoresDescriptor3(a: Message, done: seq<Item>, x: MessageDescriptor, y: MessageDescriptor)
    requires Stores(a, done, DescriptorMsg(x))
    ensures Stores(a, done + Each(8, y.oneofDecl, OfOneof) + OptBytes(7, y.options) +
              Each(9, y.reservedRange, OfReserved),
              DescriptorMsg(x.(oneofDecl := x.oneofDecl + y.oneofDecl, options := Later(x.options, y.options),
                    reservedRange := x.reservedRange + y.reservedRange)))
  {
    hide Stores, PutAll, AllProduced;
    var s1, x1 := done + Each(8, y.oneofDecl, OfOneof), x.(oneofDecl := x.oneofDecl + y.oneofDecl);
    StoresMessageOneofDecl(a, done, x, y);
    var s2, x2 := s1 + OptBytes(7, y.options), x1.(options := Later(x1.options, y.options));
    assert Stores(a, s2, DescriptorMsg(x2)) by {
      ThenOpt(a, s1, DescriptorMsg(x1), OptBytes(7, y.options), DescriptorMsg(x2));
    }
    var s3, x3 := s2 + Each(9, y.reservedRange, OfReserved), x2.(reservedRange := x2.reservedRange + y.reservedRange);
    StoresMessageReservedRange(a, s2, x2, y);
  }

  lemma StoresDescriptor4(a: Message, done: seq<Item>, x: MessageDescriptor, y: MessageDescriptor)
    requires Stores(a, done, DescriptorMsg(x))
    ensures Stores(a, done + Each(10, y.reservedName, OfStr),
              DescriptorMsg(x.(reservedName := x.reservedName + y.reservedName)))
  {
    hide Stores, PutAll, AllProduced;
    var s1, x1 := done + Each(10, y.reservedName, OfStr), x.(reservedName := x.reservedName + y.reservedName);
    assert Stores(a, s1, DescriptorMsg(x1)) by {
      ThenEach(a, done, 10, y.reservedName, OfStr, acc => DescriptorMsg(x.(reservedName := acc)), x.reservedName);
    }
  }

  lemma StoresDescriptor(x: MessageDescriptor, y: MessageDescriptor)
    ensures Stores(DescriptorMsg(x), Items(DescriptorMsg(y)), Merged(DescriptorMsg(x), DescriptorMsg(y)))
  {
    hide Stores, PutAll, AllProduced;
    var a := DescriptorMsg(x);
    StoresNone(a);
    StoresDescriptor1(a, [], x, y);
    var s1 := [] + OptStr(1, y.name) + Each(2, y.field, OfField) + Each(6, y.extension, OfField);
    var x1 := x.(name := Later(x.name, y.name), field := x.field + y.field,
      extension := x.extension + y.extension);
    StoresDescriptor2(a, s1, x1, y);
    var s2 := s1 + Each(3, y.nestedType, OfDescriptor) + Each(4, y.enumType, OfEnum) +
      Each(5, y.extensionRange, OfExtensionRange);
    var x2 := x1.(nestedType := x1.nestedType + y.nestedType, enumType := x1.enumType + y.enumType,
      extensionRange := x1.extensionRange + y.extensionRange);
    StoresDescriptor3(a, s2, x2, y);
    var s3 := s2 + Each(8, y.oneofDecl, OfOneof) + OptBytes(7, y.options) + Each(9, y.reservedRange, OfReserved);
    var x3 := x2.(oneofDecl := x2.oneofDecl + y.oneofDecl, options := Later(x2.options, y.options),
      reservedRange := x2.reservedRange + y.reservedRange);
    StoresDescriptor4(a, s3, x3, y);
    assert [] + OptStr(1, y.name) == OptStr(1, y.name);
  }

  lemma StoresField1(a: Message, done: seq<Item>, x: FieldDescriptor, y: FieldDescriptor)
    requires Stores(a, done, FieldMsg(x))
    ensures Stores(a, done + OptStr(1, y.name) + OptStr(2, y.extendee) + OptInt(3, y.number),
              FieldMsg(x.(name := Later(x.name, y.name), extendee := Later(x.extendee, y.extendee),
                    number := Later(x.number, y.number))))
  {
    hide Stores, PutAll, AllProduced;
    var s1, x1 := done + OptStr(1, y.name), x.(name := Later(x.name, y.name));
    assert Stores(a, s1, FieldMsg(x1)) by {
      ThenOpt(a, done, FieldMsg(x), OptStr(1, y.name), FieldMsg(x1));
    }
    var s2, x2 := s1 + OptStr(2, y.extendee), x1.(extendee := Later(x1.extendee, y.extendee));
    assert Stores(a, s2, FieldMsg(x2)) by {
      ThenOpt(a, s1, FieldMsg(x1), OptStr(2, y.extendee), FieldMsg(x2));
    }
    var s3, x3 := s2 + OptInt(3, y.number), x2.(number := Later(x2.number, y.number));
    assert Stores(a, s3, FieldMsg(x3)) by {
      ThenOpt(a, s2, FieldMsg(x2), OptInt(3, y.number), FieldMsg(x3));
    }
  }

  lemma StoresField2(a: Message, done: seq<Item>, x: FieldDescriptor, y: FieldDescriptor)
    requires Stores(a, done, FieldMsg(x))
    ensures Stores(a, done + LabelItems(y.fieldLabel) + TypeItems(y.ty) + OptStr(6, y.typeName),
              FieldMsg(x.(fieldLabel := Later(x.fieldLabel, y.fieldLabel), ty := Later(x.ty, y.ty),
                    typeName := Later(x.typeName, y.typeName))))
  {
    hide Stores, PutAll, AllProduced;
    var s1, x1 := done + LabelItems(y.fieldLabel), x.(fieldLabel := Later(x.fieldLabel, y.fieldLabel));
    assert Stores(a, s1, FieldMsg(x1)) by {
      ThenOpt(a, done, FieldMsg(x), LabelItems(y.fieldLabel), FieldMsg(x1));
    }
    var s2, x2 := s1 + TypeItems(y.ty), x1.(ty := Later(x1.ty, y.ty));
    assert Stores(a, s2, FieldMsg(x2)) by {
      ThenOpt(a, s1, FieldMsg(x1), TypeItems(y.ty), FieldMsg(x2));
    }
    var s3, x3 := s2 + OptStr(6, y.typeName), x2.(typeName := Later(x2.typeName, y.typeName));
    assert Stores(a, s3, FieldMsg(x3)) by {
      ThenOpt(a, s2, FieldMsg(x2), OptStr(6, y.typeName), FieldMsg(x3));
    }
  }

  lemma StoresField3(a: Message, done: seq<Item>, x: FieldDescriptor, y: FieldDescriptor)
    requires Stores(a, done, FieldMsg(x))
    ensures Stores(a, done + OptStr(7, y.defaultValue) + OptInt(9, y.oneofIndex) + OptStr(10, y.jsonName),
              FieldMsg(x.(defaultValue := Later(x.defaultValue, y.defaultValue),
                    oneofIndex := Later(x.oneofIndex, y.oneofIndex), jsonName := Later(x.jsonName, y.jsonName))))
  {
    hide Stores, PutAll, AllProduced;
    var s1, x1 := done + OptStr(7, y.defaultValue), x.(defaultValue := Later(x.defaultValue, y.defaultValue));
    assert Stores(a, s1, FieldMsg(x1)) by {
      ThenOpt(a, done, FieldMsg(x), OptStr(7, y.defaultValue), FieldMsg(x1));
    }
    var s2, x2 := s1 + OptInt(9, y.oneofIndex), x1.(oneofIndex := Later(x1.oneofIndex, y.oneofIndex));
    assert Stores(a, s2, FieldMsg(x2)) by {
      ThenOpt(a, s1, FieldMsg(x1), OptInt(9, y.oneofIndex), FieldMsg(x2));
    }
    var s3, x3 := s2 + OptStr(10, y.jsonName), x2.(jsonName := Later(x2.jsonName, y.jsonName));
    assert Stores(a, s3, FieldMsg(x3)) by {
      ThenOpt(a, s2, FieldMsg(x2), OptStr(10, y.jsonName), FieldMsg(x3));
    }
  }

  lemma StoresField4(a: Message, done: seq<Item>, x: FieldDescriptor, y: FieldDescriptor)
    requires Stores(a, done, FieldMsg(x))
    ensures Stores(a, done + OptBytes(8, y.options) + OptBool(17, y.proto3Optional),
              FieldMsg(x.(options := Later(x.options, y.options),
                    proto3Optional := Later(x.proto3Optional, y.proto3Optional))))
  {
    hide Stores, PutAll, AllProduced;
    var s1, x1 := done + OptBytes(8, y.options), x.(options := Later(x.options, y.options));
    assert Stores(a, s1, FieldMsg(x1)) by {
      ThenOpt(a, done, FieldMsg(x), OptBytes(8, y.options), FieldMsg(x1));
    }
    var s2, x2 := s1 + OptBool(17, y.proto3Optional), x1.(proto3Optional := Later(x1.proto3Optional, y.proto3Optional));
    assert Stores(a, s2, FieldMsg(x2)) by {
      ThenOpt(a, s1, FieldMsg(x1), OptBool(17, y.proto3Optional), FieldMsg(x2));
    }
  }

  lemma StoresField(x: FieldDescriptor, y: FieldDescriptor)
    ensures Stores(FieldMsg(x), Items(FieldMsg(y)), Merged(FieldMsg(x), FieldMsg(y)))
  {
    hide Stores, PutAll, AllProduced;
    var a := FieldMsg(x);
    StoresNone(a);
    StoresField1(a, [], x, y);
    var s1 := [] + OptStr(1, y.name) + OptStr(2, y.extendee) + OptInt(3, y.number);
    var x1 := x.(name := Later(x.name, y.name), extendee := Later(x.extendee, y.extendee),
      number := Later(x.number, y.number));
    StoresField2(a, s1, x1, y);
    var s2 := s1 + LabelItems(y.fieldLabel) + TypeItems(y.ty) + OptStr(6, y.typeName);
    var x2 := x1.(fieldLabel := Later(x1.fieldLabel, y.fieldLabel), ty := Later(x1.ty, y.ty),
      typeName := Later(x1.typeName, y.typeName));
    StoresField3(a, s2, x2, y);
    var s3 := s2 + OptStr(7, y.defaultValue) + OptInt(9, y.oneofIndex) + OptStr(10, y.jsonName);
    var x3 := x2.(defaultValue := Later(x2.defaultValue, y.defaultValue),
      oneofIndex := Later(x2.oneofIndex, y.oneofIndex), jsonName := Later(x2.jsonName, y.jsonName));
    StoresField4(a, s3, x3, y);
    assert [] + OptStr(1, y.name) == OptStr(1, y.name);
  }

  lemma StoresEnum1(a: Message, done: seq<Item>, x: EnumDescriptor, y: EnumDescriptor)
    requires Stores(a, done, EnumMsg(x))
    ensures Stores(a, done + OptStr(1, y.name) + Each(2, y.value, OfEnumValue) + OptBytes(3, y.options),
              EnumMsg(x.(name := Later(x.name, y.name), value := x.value + y.value,
                    options := Later(x.options, y.options))))
  {
    hide Stores, PutAll, AllProduced;
    var s1, x1 := done + OptStr(1, y.name), x.(name := Later(x.name, y.name));
    assert Stores(a, s1, EnumMsg(x1)) by {
      ThenOpt(a, done, EnumMsg(x), OptStr(1, y.name), EnumMsg(x1));
    }
    var s2, x2 := s1 + Each(2, y.value, OfEnumValue), x1.(value := x1.value + y.value);
    assert Stores(a, s2, EnumMsg(x2)) by {
      ThenEach(a, s1, 2, y.value, OfEnumValue, acc => EnumMsg(x1.(value := acc)), x1.value);
    }
    var s3, x3 := s2 + OptBytes(3, y.options), x2.(options := Later(x2.options, y.options));
    assert Stores(a, s3, EnumMsg(x3)) by {
      ThenOpt(a, s2, EnumMsg(x2), OptBytes(3, y.options), EnumMsg(x3));
    }
  }

  lemma StoresEnum2(a: Message, done: seq<Item>, x: EnumDescriptor, y: EnumDescriptor)
    requires Stores(a, done, EnumMsg(x))
    ensures Stores(a, done + Each(4, y.reservedRange, OfReserved) + Each(5, y.reservedName, OfStr),
              EnumMsg(x.(reservedRange := x.reservedRange + y.reservedRange,
                    reservedName := x.reservedName + y.reservedName)))
  {
    hide Stores, PutAll, AllProduced;
    var s1, x1 := done + Each(4, y.reservedRange, OfReserved), x.(reservedRange := x.reservedRange + y.reservedRange);
    assert Stores(a, s1, EnumMsg(x1)) by {
      ThenEach(a, done, 4, y.reservedRange, OfReserved, acc => EnumMsg(x.(reservedRange := acc)), x.reservedRange);
    }
    var s2, x2 := s1 + Each(5, y.reservedName, OfStr), x1.(reservedName := x1.reservedName + y.reservedName);
    assert Stores(a, s2, EnumMsg(x2)) by {
      ThenEach(a, s1, 5, y.reservedName, OfStr, acc => EnumMsg(x1.(reservedName := acc)), x1.reservedName);
    }
  }

  lemma StoresEnum(x: EnumDescriptor, y: EnumDescriptor)
    ensures Stores(EnumMsg(x), Items(EnumMsg(y)), Merged(EnumMsg(x), EnumMsg(y)))
  {
    hide Stores, PutAll, AllProduced;
    var a := EnumMsg(x);
    StoresNone(a);
    StoresEnum1(a, [], x, y);
    var s1 := [] + OptStr(1, y.name) + Each(2, y.value, OfEnumValue) + OptBytes(3, y.options);
    var x1 := x.(name := Later(x.name, y.name), value := x.value + y.value,
      options := Later(x.options, y.options));
    StoresEnum2(a, s1, x1, y);
    assert [] + OptStr(1, y.name) == OptStr(1, y.name);
  }

  lemma StoresEnumValue(x: EnumValueDescriptor, y: EnumValueDescriptor)
    ensures Stores(EnumValueMsg(x), Items(EnumValueMsg(y)), Merged(EnumValueMsg(x), EnumValueMsg(y)))
  {
    hide Stores, PutAll, AllProduced;
    var a := EnumValueMsg(x);
    StoresNone(a);
    var s1, x1 := OptStr(1, y.name), x.(name := Later(x.name, y.name));
    assert Stores(a, s1, EnumValueMsg(x1)) by {
      ThenOpt(a, [], EnumValueMsg(x), OptStr(1, y.name), EnumValueMsg(x1));
    }
    var s2, x2 := s1 + OptInt(2, y.number), x1.(number := Later(x1.number, y.number));
    assert Stores(a, s2, EnumValueMsg(x2)) by {
      ThenOpt(a, s1, EnumValueMsg(x1), OptInt(2, y.number), EnumValueMsg(x2));
    }
    var s3, x3 := s2 + OptBytes(3, y.options), x2.(options := Later(x2.options, y.options));
    assert Stores(a, s3, EnumValueMsg(x3)) by {
      ThenOpt(a, s2, EnumValueMsg(x2), OptBytes(3, y.options), EnumValueMsg(x3));
    }
  }

  lemma StoresOneof(x: OneofDescriptor, y: OneofDescriptor)
    ensures Stores(OneofMsg(x), Items(OneofMsg(y)), Merged(OneofMsg(x), OneofMsg(y)))
  {
    hide Stores, PutAll, AllProduced;
    var a := OneofMsg(x);
    StoresNone(a);
    var s1, x1 := OptStr(1, y.name), x.(name := Later(x.name, y.name));
    assert Stores(a, s1, OneofMsg(x1)) by {
      ThenOpt(a, [], OneofMsg(x), OptStr(1, y.name), OneofMsg(x1));
    }
    var s2, x2 := s1 + OptBytes(2, y.options), x1.(options := Later(x1.options, y.options));
    assert Stores(a, s2, OneofMsg(x2)) by {
      ThenOpt(a, s1, OneofMsg(x1), OptBytes(2, y.options), OneofMsg(x2));
    }
  }

  lemma StoresReserved(x: ReservedRange, y: ReservedRange)
    ensures Stores(ReservedMsg(x), Items(ReservedMsg(y)), Merged(ReservedMsg(x), ReservedMsg(y)))
  {
    hide Stores, PutAll, AllProduced;
    var a := ReservedMsg(x);
    StoresNone(a);
    var s1, x1 := OptInt(1, NonZero(y.start)), x.(start := LaterInt(x.start, y.start));
    assert Stores(a, s1, ReservedMsg(x1)) by {
      ThenOpt(a, [], ReservedMsg(x), OptInt(1, NonZero(y.start)), ReservedMsg(x1));
    }
    var s2, x2 := s1 + OptInt(2, NonZero(y.end)), x1.(end := LaterInt(x1.end, y.end));
    assert Stores(a, s2, ReservedMsg(x2)) by {
      ThenOpt(a, s1, ReservedMsg(x1), OptInt(2, NonZero(y.end)), ReservedMsg(x2));
    }
  }

  lemma StoresExtensionRange(x: ExtensionRange, y: ExtensionRange)
    ensures Stores(ExtensionRangeMsg(x), Items(ExtensionRangeMsg(y)), Merged(ExtensionRangeMsg(x), ExtensionRangeMsg(y)))
  {
    hide Stores, PutAll, AllProduced;
    var a := ExtensionRangeMsg(x);
    StoresNone(a);
    var s1, x1 := OptInt(1, NonZero(y.start)), x.(start := LaterInt(x.start, y.start));
    assert Stores(a, s1, ExtensionRangeMsg(x1)) by {
      ThenOpt(a, [], ExtensionRangeMsg(x), OptInt(1, NonZero(y.start)), ExtensionRangeMsg(x1));
    }
    var s2, x2 := s1 + OptInt(2, NonZero(y.end)), x1.(end := LaterInt(x1.end, y.end));
    assert Stores(a, s2, ExtensionRangeMsg(x2)) by {
      ThenOpt(a, s1, ExtensionRangeMsg(x1), OptInt(2, NonZero(y.end)), ExtensionRangeMsg(x2));
    }
  }

  lemma StoresService(x: ServiceDescriptor, y: ServiceDescriptor)
    ensures Stores(ServiceMsg(x), Items(ServiceMsg(y)), Merged(ServiceMsg(x), ServiceMsg(y)))
  {
    hide Stores, PutAll, AllProduced;
    var a := ServiceMsg(x);
    StoresNone(a);
    var s1, x1 := OptStr(1, y.name), x.(name := Later(x.name, y.name));
    assert Stores(a, s1, ServiceMsg(x1)) by {
      ThenOpt(a, [], ServiceMsg(x), OptStr(1, y.name), ServiceMsg(x1));
    }
    var s2, x2 := s1 + Each(2, y.methods, OfMethod), x1.(methods := x1.methods + y.methods);
    assert Stores(a, s2, ServiceMsg(x2)) by {
      ThenEach(a, s1, 2, y.methods, OfMethod, acc => ServiceMsg(x1.(methods := acc)), x1.methods);
    }
    var s3, x3 := s2 + OptBytes(3, y.options), x2.(options := Later(x2.options, y.options));
    assert Stores(a, s3, ServiceMsg(x3)) by {
      ThenOpt(a, s2, ServiceMsg(x2), OptBytes(3, y.options), ServiceMsg(x3));
    }
  }

  lemma StoresMethod1(a: Message, done: seq<Item>, x: MethodDescriptor, y: MethodDescriptor)
    requires Stores(a, done, MethodMsg(x))
    ensures Stores(a, done + OptStr(1, y.name) + OptStr(2, y.inputType) + OptStr(3, y.outputType),
              MethodMsg(x.(name := Later(x.name, y.name), inputType := Later(x.inputType, y.inputType),
                    outputType := Later(x.outputType, y.outputType))))
  {
    hide Stores, PutAll, AllProduced;
    var s1, x1 := done + OptStr(1, y.name), x.(name := Later(x.name, y.name));
    assert Stores(a, s1, MethodMsg(x1)) by {
      ThenOpt(a, done, MethodMsg(x), OptStr(1, y.name), MethodMsg(x1));
    }
    var s2, x2 := s1 + OptStr(2, y.inputType), x1.(inputType := Later(x1.inputType, y.inputType));
    assert Stores(a, s2, MethodMsg(x2)) by {
      ThenOpt(a, s1, MethodMsg(x1), OptStr(2, y.inputType), MethodMsg(x2));
    }
    var s3, x3 := s2 + OptStr(3, y.outputType), x2.(outputType := Later(x2.outputType, y.outputType));
    assert Stores(a, s3, MethodMsg(x3)) by {
      ThenOpt(a, s2, MethodMsg(x2), OptStr(3, y.outputType), MethodMsg(x3));
    }
  }

  lemma StoresMethod2(a: Message, done: seq<Item>, x: MethodDescriptor, y: MethodDescriptor)
    requires Stores(a, done, MethodMsg(x))
    ensures Stores(a, done + OptBytes(4, y.options) + OptBool(5, y.clientStreaming) +
              OptBool(6, y.serverStreaming),
              MethodMsg(x.(options := Later(x.options, y.options),
                    clientStreaming := Later(x.clientStreaming, y.clientStreaming),
                    serverStreaming := Later(x.serverStreaming, y.serverStreaming))))
  {
    hide Stores, PutAll, AllProduced;
    var s1, x1 := done + OptBytes(4, y.options), x.(options := Later(x.options, y.options));
    assert Stores(a, s1, MethodMsg(x1)) by {
      ThenOpt(a, done, MethodMsg(x), OptBytes(4, y.options), MethodMsg(x1));
    }
    var s2, x2 := s1 + OptBool(5, y.clientStreaming), x1.(clientStreaming := Later(x1.clientStreaming, y.clientStreaming));
    assert Stores(a, s2, MethodMsg(x2)) by {
      ThenOpt(a, s1, MethodMsg(x1), OptBool(5, y.clientStreaming), MethodMsg(x2));
    }
    var s3, x3 := s2 + OptBool(6, y.serverStreaming), x2.(serverStreaming := Later(x2.serverStreaming, y.serverStreaming));
    assert Stores(a, s3, MethodMsg(x3)) by {
      ThenOpt(a, s2, MethodMsg(x2), OptBool(6, y.serverStreaming), MethodMsg(x3));
    }
  }

  lemma StoresMethod(x: MethodDescriptor, y: MethodDescriptor)
    ensures Stores(MethodMsg(x), Items(MethodMsg(y)), Merged(MethodMsg(x), MethodMsg(y)))
  {
    hide Stores, PutAll, AllProduced;
    var a := MethodMsg(x);
    StoresNone(a);
    StoresMethod1(a, [], x, y);
    var s1 := [] + OptStr(1, y.name) + OptStr(2, y.inputType) + OptStr(3, y.outputType);
    var x1 := x.(name := Later(x.name, y.name), inputType := Later(x.inputType, y.inputType),
      outputType := Later(x.outputType, y.outputType));
    StoresMethod2(a, s1, x1, y);
    assert [] + OptStr(1, y.name) == OptStr(1, y.name);
  }
}
