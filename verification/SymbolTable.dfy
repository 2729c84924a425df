/** Which names the files of a set define (compiler/pipeline.rs). */
module SymbolTable {
  import opened Utf8
  import opened TypeNames
  import D = Descriptor

  // -------------------------------------------------------------- the names a file defines

  function EnumSymbols(es: seq<D.EnumDescriptor>, prefix: Str): seq<Str> {
    if |es| == 0 then []
    else EnumSymbols(es[..|es| - 1], prefix) + [Qualify(prefix, Text(es[|es| - 1].name))]
  }

  /** The names one message defines, in the order `collect_message` meets them. */
  function MessageSymbols(m: D.MessageDescriptor, prefix: Str): seq<Str>
    decreases m, 0
  {
    var fqn := Qualify(prefix, Text(m.name));
    [fqn] + MessagesSymbols(m.nestedType, fqn) + EnumSymbols(m.enumType, fqn)
  }

  function MessagesSymbols(ms: seq<D.MessageDescriptor>, prefix: Str): seq<Str>
    decreases ms, 1
  {
    if |ms| == 0 then []
    else MessagesSymbols(ms[..|ms| - 1], prefix) + MessageSymbols(ms[|ms| - 1], prefix)
  }

  function FileSymbols(fd: D.FileDescriptor): seq<Str> {
    MessagesSymbols(fd.messageType, Text(fd.package)) + EnumSymbols(fd.enumType, Text(fd.package))
  }

  lemma MemberSymbols(ms: seq<D.MessageDescriptor>, i: nat, prefix: Str, s: Str)
    requires i < |ms| && s in MessageSymbols(ms[i], prefix)
    ensures s in MessagesSymbols(ms, prefix)
    decreases |ms|
  {
    if i < |ms| - 1 { MemberSymbols(ms[..|ms| - 1], i, prefix, s); }
  }

  // ------------------------------------------------------- the same, by paths of names

  /** A chain of nested message names, ending at a message or an enum. */
  ghost predicate Declares(ms: seq<D.MessageDescriptor>, es: seq<D.EnumDescriptor>, path: seq<Str>)
    decreases |path|
  {
    if |path| == 0 then false
    else if |path| == 1 then
      || (exists i :: 0 <= i < |ms| && Text(ms[i].name) == path[0])
      || (exists i :: 0 <= i < |es| && Text(es[i].name) == path[0])
    else exists i :: 0 <= i < |ms| && Text(ms[i].name) == path[0]
                     && Declares(ms[i].nestedType, ms[i].enumType, path[1..])
  }

  function FullName(prefix: Str, path: seq<Str>): Str
    requires |path| > 0
    decreases |path|
  {
    if |path| == 1 then Qualify(prefix, path[0]) else FullName(Qualify(prefix, path[0]), path[1..])
  }

  lemma {:induction false} EnumSymbolsMeaning(es: seq<D.EnumDescriptor>, prefix: Str, s: Str)
    ensures s in EnumSymbols(es, prefix) <==> exists i :: 0 <= i < |es| && s == Qualify(prefix, Text(es[i].name))
  {
    hide IsUtf8, Qualify, Text;
    if |es| != 0 {
      var (front, last) := (es[..|es| - 1], es[|es| - 1]);
      EnumSymbolsMeaning(front, prefix, s);
      assert s in EnumSymbols(es, prefix) <==> s in EnumSymbols(front, prefix) || s == Qualify(prefix, Text(last.name));
      hide EnumSymbols;
      assert forall i :: 0 <= i < |front| ==> front[i] == es[i];
    }
  }

  lemma {:induction false} MessagesSymbolsMeaning(ms: seq<D.MessageDescriptor>, prefix: Str, s: Str)
    ensures s in MessagesSymbols(ms, prefix) <==> exists i :: 0 <= i < |ms| && s in MessageSymbols(ms[i], prefix)
  {
    hide IsUtf8, MessageSymbols;
    if |ms| != 0 {
      var front := ms[..|ms| - 1];
      MessagesSymbolsMeaning(front, prefix, s);
      if i :| 0 <= i < |front| && s in MessageSymbols(front[i], prefix) { assert front[i] == ms[i]; }
      if i :| 0 <= i < |ms| && s in MessageSymbols(ms[i], prefix) {
        if i < |front| { assert front[i] == ms[i]; }
      }
    }
  }

  /** Every declared path has its full name among the symbols. */
  lemma {:induction false} DeclaredIsSymbol(ms: seq<D.MessageDescriptor>, es: seq<D.EnumDescriptor>, prefix: Str,
                                          path: seq<Str>)
    requires Declares(ms, es, path)
    ensures |path| > 0 && FullName(prefix, path) in MessagesSymbols(ms, prefix) + EnumSymbols(es, prefix)
    decreases |path|
  {
    hide IsUtf8, Qualify, MessagesSymbols, EnumSymbols;
    var s := FullName(prefix, path);
    MessagesSymbolsMeaning(ms, prefix, s);
    EnumSymbolsMeaning(es, prefix, s);
    if |path| > 1 {
      var i :| 0 <= i < |ms| && Text(ms[i].name) == path[0] && Declares(ms[i].nestedType, ms[i].enumType, path[1..]);
      DeclaredIsSymbol(ms[i].nestedType, ms[i].enumType, Qualify(prefix, path[0]), path[1..]);
      assert s in MessageSymbols(ms[i], prefix);
    } else if i :| 0 <= i < |ms| && Text(ms[i].name) == path[0] {
      assert s in MessageSymbols(ms[i], prefix);
    }
  }

  /** And every symbol is the full name of a declared path. */
  lemma {:induction false} SymbolIsDeclared(ms: seq<D.MessageDescriptor>, es: seq<D.EnumDescriptor>, prefix: Str, s: Str)
    returns (path: seq<Str>)
    requires s in MessagesSymbols(ms, prefix) + EnumSymbols(es, prefix)
    ensures Declares(ms, es, path) && |path| > 0 && s == FullName(prefix, path)
    decreases ms
  {
    hide IsUtf8, Qualify, MessagesSymbols, EnumSymbols;
    MessagesSymbolsMeaning(ms, prefix, s);
    EnumSymbolsMeaning(es, prefix, s);
    if s in MessagesSymbols(ms, prefix) {
      var i :| 0 <= i < |ms| && s in MessageSymbols(ms[i], prefix);
      var fqn := Qualify(prefix, Text(ms[i].name));
      if s == fqn {
        path := [Text(ms[i].name)];
      } else {
        var inner := SymbolIsDeclared(ms[i].nestedType, ms[i].enumType, fqn, s);
        path := [Text(ms[i].name)] + inner;
        assert path[1..] == inner;
      }
    } else {
      var i :| 0 <= i < |es| && s == Qualify(prefix, Text(es[i].name));
      path := [Text(es[i].name)];
    }
  }

  // ------------------------------------------------------------------------- the table

  /** A symbol found in a file other than the one that has it already. */
  datatype Duplicate = Duplicate(symbol: Str, owner: string, file: string)

  datatype Table = Table(owner: map<Str, string>, byFile: map<string, set<Str>>, duplicates: seq<Duplicate>)

  const EMPTY := Table(map[], map[], [])

  function SymbolsOf(t: Table, file: string): set<Str> {
    if file in t.byFile then t.byFile[file] else {}
  }

  /** `insert_symbol` */
  function Insert(t: Table, s: Str, file: string): Table {
    Table(
      if s in t.owner then t.owner else t.owner[s := file],
      t.byFile[file := SymbolsOf(t, file) + {s}],
      if s in t.owner && t.owner[s] != file then t.duplicates + [Duplicate(s, t.owner[s], file)] else t.duplicates)
  }

  function InsertAll(t: Table, names: seq<Str>, file: string): Table {
    if |names| == 0 then t else Insert(InsertAll(t, names[..|names| - 1], file), names[|names| - 1], file)
  }

  lemma InsertNone(t: Table, file: string)
    ensures InsertAll(t, [], file) == t
  {
  }

  lemma InsertAllSnoc(t: Table, names: seq<Str>, file: string)
    requires |names| > 0
    ensures InsertAll(t, names, file) == Insert(InsertAll(t, names[..|names| - 1], file), names[|names| - 1], file)
  {
  }

  lemma {:induction false} InsertAllAppend(t: Table, a: seq<Str>, b: seq<Str>, file: string)
    ensures InsertAll(t, a + b, file) == InsertAll(InsertAll(t, a, file), b, file)
  {
    hide Insert;
    if |b| == 0 {
      assert a + b == a;
    } else {
      var front := b[..|b| - 1];
      InsertAllAppend(t, a, front, file);
      assert (a + b)[..|a + b| - 1] == a + front;
      assert (a + b)[|a + b| - 1] == b[|b| - 1];
      hide InsertAll;
      InsertAllSnoc(t, a + b, file);
      InsertAllSnoc(InsertAll(t, a, file), b, file);
    }
  }

  lemma {:induction false} InsertAllMeaning(t: Table, names: seq<Str>, file: string)
    ensures var u := InsertAll(t, names, file);
            && (forall s :: s in u.owner <==> s in t.owner || s in names)
            && (forall s :: s in t.owner ==> u.owner[s] == t.owner[s])
            && (forall s :: s in names && s !in t.owner ==> u.owner[s] == file)
            && (forall s :: s in SymbolsOf(u, file) <==> s in SymbolsOf(t, file) || s in names)
            && (forall f :: f != file ==> SymbolsOf(u, f) == SymbolsOf(t, f))
    ensures |InsertAll(t, names, file).duplicates| == 0 <==>
            |t.duplicates| == 0 && forall s :: s in names && s in t.owner ==> t.owner[s] == file
  {
    if |names| != 0 {
      var (front, last) := (names[..|names| - 1], names[|names| - 1]);
      InsertAllMeaning(t, front, file);
      assert forall s :: s in names <==> s in front || s == last;
    }
  }

  type Named = (string, D.FileDescriptor)

  function Collected(files: seq<Named>): Table {
    if |files| == 0 then EMPTY
    else
      var last := files[|files| - 1];
      InsertAll(Collected(files[..|files| - 1]), FileSymbols(last.1), last.0)
  }

  predicate Defines(f: Named, s: Str) {
    s in FileSymbols(f.1)
  }

  /** No two files of different names define the same symbol. */
  ghost predicate NoClash(files: seq<Named>) {
    forall i, j, s :: 0 <= i < |files| && 0 <= j < |files| && Defines(files[i], s) && Defines(files[j], s)
      ==> files[i].0 == files[j].0
  }

  ghost predicate Owned(files: seq<Named>, owner: map<Str, string>) {
    forall i, s {:trigger Defines(files[i], s)} :: 0 <= i < |files| && Defines(files[i], s) ==> s in owner && owner[s] == files[i].0
  }

  lemma {:induction false} OwnersAreDefiners(files: seq<Named>, s: Str) returns (i: nat)
    requires s in Collected(files).owner
    ensures i < |files| && Defines(files[i], s) && files[i].0 == Collected(files).owner[s]
  {
    hide FileSymbols, InsertAll, SymbolsOf;
    var (front, last) := (files[..|files| - 1], files[|files| - 1]);
    InsertAllMeaning(Collected(front), FileSymbols(last.1), last.0);
    if s in Collected(front).owner { i := OwnersAreDefiners(front, s); } else { i := |files| - 1; }
  }

  lemma {:induction false} DefinedIsOwned(files: seq<Named>, i: nat, s: Str)
    requires i < |files| && Defines(files[i], s)
    ensures s in Collected(files).owner && s in SymbolsOf(Collected(files), files[i].0)
  {
    hide FileSymbols, InsertAll, SymbolsOf;
    var (front, last) := (files[..|files| - 1], files[|files| - 1]);
    InsertAllMeaning(Collected(front), FileSymbols(last.1), last.0);
    if i < |front| { DefinedIsOwned(front, i, s); }
  }

  lemma {:induction false} SymbolsAreDefined(files: seq<Named>, file: string, s: Str) returns (i: nat)
    requires s in SymbolsOf(Collected(files), file)
    ensures i < |files| && files[i].0 == file && Defines(files[i], s)
  {
    hide FileSymbols, InsertAll;
    var (front, last) := (files[..|files| - 1], files[|files| - 1]);
    InsertAllMeaning(Collected(front), FileSymbols(last.1), last.0);
    if s in SymbolsOf(Collected(front), file) { i := SymbolsAreDefined(front, file, s); } else { i := |files| - 1; }
  }

  /** Duplicates are reported if and only if two differently named files define the same symbol. */
  lemma {:induction false} DuplicatesDecide(files: seq<Named>)
    ensures |Collected(files).duplicates| == 0 <==> NoClash(files)
  {
    if |files| != 0 {
      var (front, last) := (files[..|files| - 1], files[|files| - 1]);
      var t := Collected(front);
      DuplicatesDecide(front);
      InsertAllMeaning(t, FileSymbols(last.1), last.0);
      if |Collected(files).duplicates| == 0 {
        ClashFree(files);
      } else if NoClash(files) {
        assert NoClash(front) by { assert forall i :: 0 <= i < |front| ==> front[i] == files[i]; }
        var s :| s in FileSymbols(last.1) && s in t.owner && t.owner[s] != last.0;
        var i := OwnersAreDefiners(front, s);
        assert Defines(files[i], s) && Defines(files[|files| - 1], s);
      }
    }
  }

  /** The first file that defines the symbol. */
  ghost predicate FirstDefines(files: seq<Named>, j: nat, s: Str) {
    j < |files| && Defines(files[j], s) && forall k :: 0 <= k < j ==> !Defines(files[k], s)
  }

  /** The first definer owns a symbol. */
  lemma {:induction false} FirstOwner(files: seq<Named>, s: Str) returns (j: nat)
    requires s in Collected(files).owner
    ensures FirstDefines(files, j, s) && files[j].0 == Collected(files).owner[s]
  {
    hide InsertAll, Defines, SymbolsOf;
    var (front, last) := (files[..|files| - 1], files[|files| - 1]);
    InsertAllMeaning(Collected(front), FileSymbols(last.1), last.0);
    assert forall k :: 0 <= k < |front| ==> front[k] == files[k];
    if s in Collected(front).owner {
      j := FirstOwner(front, s);
    } else {
      j := |files| - 1;
      forall k | 0 <= k < j
        ensures !Defines(files[k], s)
      {
        if Defines(files[k], s) { DefinedIsOwned(front, k, s); }
      }
      assert Defines(last, s) by { DefinesIs(last, s); }
    }
  }

  lemma DefinesIs(f: Named, s: Str)
    ensures Defines(f, s) <==> s in FileSymbols(f.1)
  {
  }

  /** What inserting the names of one file reports: those that another file has already. */
  predicate Clashes(t: Table, names: seq<Str>, file: string, d: Duplicate) {
    && d.symbol in names && d.file == file
    && d.symbol in t.owner && t.owner[d.symbol] != file && d.owner == t.owner[d.symbol]
  }

  lemma {:induction false} InsertAllReports(t: Table, names: seq<Str>, file: string, d: Duplicate)
    ensures d in InsertAll(t, names, file).duplicates <==> d in t.duplicates || Clashes(t, names, file, d)
  {
    if |names| != 0 {
      hide InsertAll;
      var (front, last) := (names[..|names| - 1], names[|names| - 1]);
      InsertAllReports(t, front, file, d);
      InsertAllMeaning(t, front, file);
      InsertAllSnoc(t, names, file);
      assert forall s :: s in names <==> s in front || s == last;
    } else {
      InsertNone(t, file);
      assert names == [];
    }
  }

  /** The file `i` defines the symbol although the file `j`, the first to do so, has another name. */
  ghost predicate IsDuplicate(files: seq<Named>, j: nat, i: nat, d: Duplicate) {
    && FirstDefines(files, j, d.symbol) && i < |files| && Defines(files[i], d.symbol)
    && files[j].0 != files[i].0 && d.owner == files[j].0 && d.file == files[i].0
  }

  lemma FirstStays(files: seq<Named>, j: nat, s: Str)
    requires |files| > 0 && FirstDefines(files[..|files| - 1], j, s)
    ensures FirstDefines(files, j, s)
  {
    hide Defines;
    assert forall k :: 0 <= k < |files| - 1 ==> files[..|files| - 1][k] == files[k];
  }

  lemma OneFirst(files: seq<Named>, j: nat, k: nat, s: Str)
    requires FirstDefines(files, j, s) && FirstDefines(files, k, s)
    ensures j == k
  {
    hide Defines;
  }

  ghost predicate SomeDuplicate(files: seq<Named>, d: Duplicate) {
    exists j: nat, i: nat :: IsDuplicate(files, j, i, d)
  }

  lemma LastReports(files: seq<Named>, d: Duplicate)
    requires |files| > 0
    ensures var (front, last) := (files[..|files| - 1], files[|files| - 1]);
            d in Collected(files).duplicates <==>
            d in Collected(front).duplicates || Clashes(Collected(front), FileSymbols(last.1), last.0, d)
  {
    hide InsertAll, FileSymbols, Clashes;
    var (front, last) := (files[..|files| - 1], files[|files| - 1]);
    InsertAllReports(Collected(front), FileSymbols(last.1), last.0, d);
  }

  lemma LastDuplicates(files: seq<Named>, d: Duplicate)
    requires |files| > 0
    ensures var (front, last) := (files[..|files| - 1], files[|files| - 1]);
            SomeDuplicate(files, d) <==>
            SomeDuplicate(front, d) || Clashes(Collected(front), FileSymbols(last.1), last.0, d)
  {
    hide Collected, FileSymbols, IsDuplicate;
    var (front, last) := (files[..|files| - 1], files[|files| - 1]);
    if j: nat, i: nat :| IsDuplicate(front, j, i, d) { MoreDuplicates(files, j, i, d); }
    if Clashes(Collected(front), FileSymbols(last.1), last.0, d) { LastDuplicate(files, d); }
    if j: nat, i: nat :| IsDuplicate(files, j, i, d) { FewerDuplicates(files, j, i, d); }
  }

  /** A duplicate is reported for each such file, with the first definer as the owner, and for no other. */
  lemma {:induction false} DuplicatesExactly(files: seq<Named>, d: Duplicate)
    ensures d in Collected(files).duplicates <==> exists j: nat, i: nat :: IsDuplicate(files, j, i, d)
  {
    hide Collected, FileSymbols, Clashes, IsDuplicate;
    if |files| != 0 {
      DuplicatesExactly(files[..|files| - 1], d);
      LastReports(files, d);
      LastDuplicates(files, d);
    } else {
      NoFiles(files, d);
    }
  }

  lemma NoFiles(files: seq<Named>, d: Duplicate)
    requires |files| == 0
    ensures d !in Collected(files).duplicates && forall j: nat, i: nat :: !IsDuplicate(files, j, i, d)
  {
  }

  lemma MoreDuplicates(files: seq<Named>, j: nat, i: nat, d: Duplicate)
    requires |files| > 0 && IsDuplicate(files[..|files| - 1], j, i, d)
    ensures IsDuplicate(files, j, i, d)
  {
    hide Defines;
    FirstStays(files, j, d.symbol);
  }

  lemma LastDuplicate(files: seq<Named>, d: Duplicate)
    requires |files| > 0
    requires var last := files[|files| - 1];
             Clashes(Collected(files[..|files| - 1]), FileSymbols(last.1), last.0, d)
    ensures SomeDuplicate(files, d)
  {
    hide Collected, Defines, FirstDefines, FileSymbols;
    var (front, last) := (files[..|files| - 1], files[|files| - 1]);
    var j := FirstOwner(front, d.symbol);
    FirstStays(files, j, d.symbol);
    DefinesIs(last, d.symbol);
    assert j < |front| by { FirstPlace(front, j, d.symbol); }
    assert IsDuplicate(files, j, |files| - 1, d);
  }

  lemma FirstPlace(files: seq<Named>, j: nat, s: Str)
    requires FirstDefines(files, j, s)
    ensures j < |files|
  {
  }

  lemma FewerDuplicates(files: seq<Named>, j: nat, i: nat, d: Duplicate)
    requires |files| > 0 && IsDuplicate(files, j, i, d)
    ensures var (front, last) := (files[..|files| - 1], files[|files| - 1]);
            IsDuplicate(front, j, i, d) || Clashes(Collected(front), FileSymbols(last.1), last.0, d)
  {
    hide Collected, Defines;
    var (front, last) := (files[..|files| - 1], files[|files| - 1]);
    assert forall k :: 0 <= k < |front| ==> front[k] == files[k];
    FirstBefore(files, j, i, d.symbol);
    assert FirstDefines(front, j, d.symbol);
    if i == |files| - 1 {
      DefinesIs(last, d.symbol);
      DefinedIsOwned(front, j, d.symbol);
      var k := FirstOwner(front, d.symbol);
      OneFirst(front, j, k, d.symbol);
    }
  }

  /** The first definer comes before every other one. */
  lemma FirstBefore(files: seq<Named>, j: nat, i: nat, s: Str)
    requires FirstDefines(files, j, s) && i < |files| && Defines(files[i], s) && files[j].0 != files[i].0
    ensures j < i
  {
    hide Defines;
  }

  lemma {:induction false} AllOwned(files: seq<Named>)
    requires |Collected(files).duplicates| == 0
    ensures Owned(files, Collected(files).owner)
  {
    if |files| != 0 {
      var (front, last) := (files[..|files| - 1], files[|files| - 1]);
      var t := Collected(front);
      InsertAllMeaning(t, FileSymbols(last.1), last.0);
      AllOwned(front);
      hide FileSymbols, InsertAll;
      OwnedMore(files, t.owner, Collected(files).owner);
    }
  }

  lemma OwnedMore(files: seq<Named>, owner: map<Str, string>, owner': map<Str, string>)
    requires |files| > 0 && Owned(files[..|files| - 1], owner)
    requires forall s :: s in owner ==> s in owner' && owner'[s] == owner[s]
    requires forall s :: s in FileSymbols(files[|files| - 1].1) ==> s in owner' && owner'[s] == files[|files| - 1].0
    ensures Owned(files, owner')
  {
    hide FileSymbols, IsUtf8;
    var front := files[..|files| - 1];
    forall i, s | 0 <= i < |files| && Defines(files[i], s)
      ensures s in owner' && owner'[s] == files[i].0
    {
      if i < |front| { assert Defines(front[i], s); }
    }
  }

  lemma ClashFree(files: seq<Named>)
    requires |Collected(files).duplicates| == 0
    ensures NoClash(files)
  {
    AllOwned(files);
    OwnedNoClash(files, Collected(files).owner);
  }

  lemma OwnedNoClash(files: seq<Named>, owner: map<Str, string>)
    requires Owned(files, owner)
    ensures NoClash(files)
  {
    hide Defines;
  }

  // -------------------------------------------------------------------- collecting them

  class Collector {
    var symbols: map<Str, string>
    var byFile: map<string, set<Str>>
    var duplicates: seq<Duplicate>

    ghost function St(): Table
      reads this
    {
      Table(symbols, byFile, duplicates)
    }

    constructor ()
      ensures St() == EMPTY
    {
      symbols, byFile, duplicates := map[], map[], [];
    }

    /** `insert_symbol` */
    method InsertSymbol(fqn: Str, file: string)
      modifies this
      ensures St() == Insert(old(St()), fqn, file)
    {
      byFile := byFile[file := (if file in byFile then byFile[file] else {}) + {fqn}];
      if fqn in symbols {
        if symbols[fqn] != file { duplicates := duplicates + [Duplicate(fqn, symbols[fqn], file)]; }
      } else {
        symbols := symbols[fqn := file];
      }
    }

    method CollectEnums(es: seq<D.EnumDescriptor>, prefix: Str, file: string)
      modifies this
      ensures St() == InsertAll(old(St()), EnumSymbols(es, prefix), file)
    {
      hide Insert, InsertAll, IsUtf8;
      ghost var t := St();
      InsertNone(t, file);
      var i := 0;
      while i < |es|
        invariant 0 <= i <= |es| && St() == InsertAll(t, EnumSymbols(es[..i], prefix), file)
      {
        InsertSymbol(Qualify(prefix, Text(es[i].name)), file);
        assert es[..i + 1][..i] == es[..i];
        InsertAllAppend(t, EnumSymbols(es[..i], prefix), [Qualify(prefix, Text(es[i].name))], file);
        InsertAllOne(InsertAll(t, EnumSymbols(es[..i], prefix), file), Qualify(prefix, Text(es[i].name)), file);
        i := i + 1;
      }
      assert es[..|es|] == es;
    }

    /** `collect_message` */
    method CollectMessage(m: D.MessageDescriptor, prefix: Str, file: string)
      modifies this
      ensures St() == InsertAll(old(St()), MessageSymbols(m, prefix), file)
      decreases m, 2
    {
      hide Insert, InsertAll, MessagesSymbols, EnumSymbols;
      ghost var t := St();
      var fqn := Qualify(prefix, Text(m.name));
      InsertSymbol(fqn, file);
      InsertAllOne(t, fqn, file);
      CollectMessages(m.nestedType, fqn, file);
      CollectEnums(m.enumType, fqn, file);
      InsertAllAppend(t, [fqn], MessagesSymbols(m.nestedType, fqn), file);
      InsertAllAppend(t, [fqn] + MessagesSymbols(m.nestedType, fqn), EnumSymbols(m.enumType, fqn), file);
    }

    method CollectMessages(ms: seq<D.MessageDescriptor>, prefix: Str, file: string)
      modifies this
      ensures St() == InsertAll(old(St()), MessagesSymbols(ms, prefix), file)
      decreases ms, 3
    {
      hide Insert, InsertAll, MessageSymbols;
      ghost var t := St();
      var i := 0;
      InsertAllNone(t, file);
      while i < |ms|
        invariant 0 <= i <= |ms| && St() == InsertAll(t, MessagesSymbols(ms[..i], prefix), file)
      {
        CollectMessage(ms[i], prefix, file);
        assert ms[..i + 1][..i] == ms[..i];
        InsertAllAppend(t, MessagesSymbols(ms[..i], prefix), MessageSymbols(ms[i], prefix), file);
        i := i + 1;
      }
      assert ms[..|ms|] == ms;
    }

    /** `collect_symbols` over the files of the set. */
    method CollectSymbols(files: seq<Named>)
      requires St() == EMPTY
      modifies this
      ensures St() == Collected(files)
    {
      hide Insert, InsertAll, MessagesSymbols, EnumSymbols;
      var i := 0;
      while i < |files|
        invariant 0 <= i <= |files| && St() == Collected(files[..i])
      {
        ghost var t := St();
        var (file, fd) := files[i];
        CollectMessages(fd.messageType, Text(fd.package), file);
        CollectEnums(fd.enumType, Text(fd.package), file);
        InsertAllAppend(t, MessagesSymbols(fd.messageType, Text(fd.package)),
                        EnumSymbols(fd.enumType, Text(fd.package)), file);
        assert files[..i + 1][..i] == files[..i];
        i := i + 1;
      }
      assert files[..|files|] == files;
    }
  }

  lemma InsertAllNone(t: Table, file: string)
    ensures InsertAll(t, [], file) == t
  {
  }

  lemma InsertAllOne(t: Table, s: Str, file: string)
    ensures InsertAll(t, [s], file) == Insert(t, s, file)
  {
    assert [s][..0] == [];
  }
}
