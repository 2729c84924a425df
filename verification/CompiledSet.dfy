/** The resolving pass of a compilation over all its files (compiler/pipeline.rs). */
module CompiledSet {
  import opened Utf8
  import opened SymbolTable
  import opened References
  import opened CompiledNames
  import D = Descriptor
  import V = ImportVisibility
  import G = ImportGraph

  type Sight = map<string, set<string>>

  function SeenBy(vis: Sight, file: string): set<string> {
    if file in vis then vis[file] else {}
  }

  /** The symbols in scope while the file is resolved. */
  function InScope(t: Table, vis: Sight, file: string): set<Str> {
    VisibleNames(t, file, SeenBy(vis, file))
  }

  function ResolvedWith(files: seq<Named>, t: Table, vis: Sight): (r: seq<Named>)
    ensures |r| == |files|
    ensures forall i :: 0 <= i < |files| ==>
              r[i] == (files[i].0, ResolvedFile(files[i].1, InScope(t, vis, files[i].0)))
  {
    seq(|files|, i requires 0 <= i < |files| =>
      (files[i].0, ResolvedFile(files[i].1, InScope(t, vis, files[i].0))))
  }

  function ErrorsWith(files: seq<Named>, t: Table, vis: Sight): seq<Unknown> {
    if |files| == 0 then []
    else
      var last := files[|files| - 1];
      ErrorsWith(files[..|files| - 1], t, vis) + FileErrors(last.1, InScope(t, vis, last.0))
  }

  /** The set after the pass, and what the pass reports: the symbols are those of the set before it. */
  function ResolvedSet(files: seq<Named>, vis: Sight): seq<Named> {
    ResolvedWith(files, Collected(files), vis)
  }

  function SetErrors(files: seq<Named>, vis: Sight): seq<Unknown> {
    ErrorsWith(files, Collected(files), vis)
  }

  /** Every reference of every file is the absolute name of a symbol in the scope of that file. */
  ghost predicate SetClosed(files: seq<Named>, t: Table, vis: Sight) {
    forall i :: 0 <= i < |files| ==> FileClosed(files[i].1, InScope(t, vis, files[i].0))
  }

  lemma ResolvedWithSnoc(files: seq<Named>, t: Table, vis: Sight)
    requires |files| > 0
    ensures var last := files[|files| - 1];
            ResolvedWith(files, t, vis) == ResolvedWith(files[..|files| - 1], t, vis)
                                           + [(last.0, ResolvedFile(last.1, InScope(t, vis, last.0)))]
  {
    hide ResolvedFile, InScope, IsUtf8;
  }

  lemma ClosedSnoc(front: seq<Named>, f: Named, t: Table, vis: Sight)
    ensures SetClosed(front + [f], t, vis) <==>
            SetClosed(front, t, vis) && FileClosed(f.1, InScope(t, vis, f.0))
  {
    hide FileClosed, InScope, IsUtf8;
    var all := front + [f];
    assert all[|front|] == f;
    assert forall i :: 0 <= i < |front| ==> all[i] == front[i];
  }

  /** The whole pass reports what it reports about some file in the scope of that file. */
  lemma {:induction false} SetReports(files: seq<Named>, t: Table, vis: Sight, e: Unknown)
    ensures e in ErrorsWith(files, t, vis) <==>
            exists i :: 0 <= i < |files| && e in FileErrors(files[i].1, InScope(t, vis, files[i].0))
  {
    hide FileErrors, InScope, IsUtf8;
    if |files| != 0 {
      var front := files[..|files| - 1];
      SetReports(front, t, vis, e);
      assert forall i :: 0 <= i < |front| ==> front[i] == files[i];
      if i :| 0 <= i < |files| && e in FileErrors(files[i].1, InScope(t, vis, files[i].0)) {
        if i < |front| { assert e in FileErrors(front[i].1, InScope(t, vis, front[i].0)); }
      }
    }
  }

  lemma {:induction false} ErrorFreeWith(files: seq<Named>, t: Table, vis: Sight)
    ensures ErrorsWith(files, t, vis) == [] <==> SetClosed(ResolvedWith(files, t, vis), t, vis)
  {
    hide FileErrors, ResolvedFile, FileClosed, InScope, ResolvedWith, IsUtf8;
    if |files| != 0 {
      hide SetClosed;
      var (front, last) := (files[..|files| - 1], files[|files| - 1]);
      var scope := InScope(t, vis, last.0);
      ErrorFreeWith(front, t, vis);
      FileErrorFree(last.1, scope);
      ResolvedWithSnoc(files, t, vis);
      ClosedSnoc(ResolvedWith(front, t, vis), (last.0, ResolvedFile(last.1, scope)), t, vis);
    }
  }

  lemma {:induction false} TableStays(files: seq<Named>, t: Table, vis: Sight)
    ensures Collected(ResolvedWith(files, t, vis)) == Collected(files)
  {
    hide FileSymbols, InsertAll, ResolvedFile, InScope, ResolvedWith, IsUtf8;
    if |files| != 0 {
      var (front, last) := (files[..|files| - 1], files[|files| - 1]);
      TableStays(front, t, vis);
      FileSymbolsStay(last.1, InScope(t, vis, last.0));
      ResolvedWithSnoc(files, t, vis);
      assert ResolvedWith(files, t, vis)[..|files| - 1] == ResolvedWith(front, t, vis);
    } else {
      assert ResolvedWith(files, t, vis) == files;
    }
  }

  lemma {:induction false} WithTwice(files: seq<Named>, t: Table, vis: Sight)
    ensures ResolvedWith(ResolvedWith(files, t, vis), t, vis) == ResolvedWith(files, t, vis)
    ensures ErrorsWith(ResolvedWith(files, t, vis), t, vis) == ErrorsWith(files, t, vis)
  {
    hide FileErrors, ResolvedFile, InScope, ResolvedWith, IsUtf8;
    if |files| != 0 {
      var (front, last) := (files[..|files| - 1], files[|files| - 1]);
      WithTwice(front, t, vis);
      FileTwice(last.1, InScope(t, vis, last.0));
      var r := ResolvedWith(files, t, vis);
      ResolvedWithSnoc(files, t, vis);
      ResolvedWithSnoc(r, t, vis);
      assert r[..|files| - 1] == ResolvedWith(front, t, vis);
    } else {
      assert ResolvedWith(files, t, vis) == files;
    }
  }

  /**
   * The pass over the whole set reports nothing if and only if afterwards every reference in it, at every depth and
   * in every method, is the absolute name of a symbol in scope, the scopes being those of the resolved set itself.
   */
  lemma SetErrorFree(files: seq<Named>, vis: Sight)
    ensures var done := ResolvedSet(files, vis);
            SetErrors(files, vis) == [] <==> SetClosed(done, Collected(done), vis)
  {
    hide ErrorsWith, ResolvedWith, SetClosed, Collected, IsUtf8;
    TableStays(files, Collected(files), vis);
    ErrorFreeWith(files, Collected(files), vis);
  }

  /** Compiling the resolved set again, its symbols collected anew, changes nothing and reports the same. */
  lemma SetTwice(files: seq<Named>, vis: Sight)
    ensures var done := ResolvedSet(files, vis);
            ResolvedSet(done, vis) == done && SetErrors(done, vis) == SetErrors(files, vis)
  {
    hide ErrorsWith, ResolvedWith, Collected, IsUtf8;
    TableStays(files, Collected(files), vis);
    WithTwice(files, Collected(files), vis);
  }

  ghost predicate SameNames(files: seq<Named>, list: seq<V.SourceFile>) {
    |files| == |list| && forall i :: 0 <= i < |files| ==> files[i].0 == list[i].name
  }

  /**
   * With the visibility computed from the source files, every name in scope of a file is defined in the file itself,
   * in one it imports, or in one that such a file re-exports publicly; without public cycles all such names are.
   */
  lemma ScopesAreImports(files: seq<Named>, list: seq<V.SourceFile>, i: nat, s: Str)
    requires SameNames(files, list) && i < |files|
    ensures var (graph, file) := (V.Index(list), files[i].0);
            && file in graph
            && (s in InScope(Collected(files), V.Visibility(list), file) ==> Reachable(files, graph, file, s))
            && (!G.HasCycle(V.PublicGraph(graph)) && Reachable(files, graph, file, s) ==>
                  s in InScope(Collected(files), V.Visibility(list), file))
  {
    hide Collected, DefinedIn, IsUtf8, V.Shows, V.Visibility, V.Index, V.SeesTame, V.PublicGraph;
    var (graph, file) := (V.Index(list), files[i].0);
    V.VisibilityAnswers(list);
    assert list[i].name == file;
    VisibleMeaning(files, file, SeenBy(V.Visibility(list), file), s);
    if !G.HasCycle(V.PublicGraph(graph)) { V.VisibilityExact(list, file); }
  }

  ghost predicate WithinReach(files: seq<Named>, graph: V.Files, file: string, scope: set<Str>)
    requires file in graph
  {
    forall s :: s in scope ==> Reachable(files, graph, file, s)
  }

  /** The references of a file are closed over the names that its imports give it. */
  ghost predicate ClosedByImports(files: seq<Named>, list: seq<V.SourceFile>, i: nat)
    requires i < |files| && SameNames(files, list) && files[i].0 in V.Index(list)
  {
    exists scope: set<Str> :: FileClosed(files[i].1, scope) && WithinReach(files, V.Index(list), files[i].0, scope)
  }

  /**
   * Import visibility, symbol table and resolving together: if the pass reports nothing, every reference in the
   * resolved set is the absolute name of a symbol of the same file, of one it imports or of one publicly re-exported
   * to it. Without public cycles the pass reports nothing exactly when that can be said of every file.
   */
  lemma CompiledReferences(files: seq<Named>, list: seq<V.SourceFile>)
    requires SameNames(files, list)
    ensures var done := ResolvedSet(files, V.Visibility(list));
            && SameNames(done, list) && (forall i :: 0 <= i < |done| ==> done[i].0 in V.Index(list))
            && (SetErrors(files, V.Visibility(list)) == [] ==>
                  forall i :: 0 <= i < |done| ==> ClosedByImports(done, list, i))
            && (!G.HasCycle(V.PublicGraph(V.Index(list))) ==>
                  (SetErrors(files, V.Visibility(list)) == [] <==>
                   forall i :: 0 <= i < |done| ==> ClosedByImports(done, list, i)))
  {
    hide Collected, IsUtf8, V.Visibility, V.Index, V.PublicGraph, FileClosed, ResolvedFile, ErrorsWith, Reachable, InScope;
    var vis := V.Visibility(list);
    var done := ResolvedSet(files, vis);
    SetErrorFree(files, vis);
    forall i | 0 <= i < |done|
      ensures done[i].0 in V.Index(list)
    {
      V.VisibilityAnswers(list);
      assert list[i].name == done[i].0;
    }
    if SetErrors(files, vis) == [] {
      forall i | 0 <= i < |done|
        ensures ClosedByImports(done, list, i)
      {
        ScopeInReach(done, list, i);
      }
    }
    if !G.HasCycle(V.PublicGraph(V.Index(list))) && forall i :: 0 <= i < |done| ==> ClosedByImports(done, list, i) {
      forall i | 0 <= i < |done|
        ensures FileClosed(done[i].1, InScope(Collected(done), vis, done[i].0))
      {
        assert ClosedByImports(done, list, i);
        ClosedInScope(done, list, i);
      }
    }
  }

  lemma ClosedInScope(files: seq<Named>, list: seq<V.SourceFile>, i: nat)
    requires SameNames(files, list) && i < |files| && files[i].0 in V.Index(list)
    requires !G.HasCycle(V.PublicGraph(V.Index(list))) && ClosedByImports(files, list, i)
    ensures FileClosed(files[i].1, InScope(Collected(files), V.Visibility(list), files[i].0))
  {
    hide Collected, IsUtf8, V.Visibility, V.Index, V.PublicGraph, FileClosed, Reachable, InScope;
    var small :| FileClosed(files[i].1, small) && WithinReach(files, V.Index(list), files[i].0, small);
    ReachInScope(files, list, i);
    ClosedGrows(files[i].1, small, InScope(Collected(files), V.Visibility(list), files[i].0));
  }

  lemma ScopeInReach(files: seq<Named>, list: seq<V.SourceFile>, i: nat)
    requires SameNames(files, list) && i < |files| && files[i].0 in V.Index(list)
    ensures WithinReach(files, V.Index(list), files[i].0, InScope(Collected(files), V.Visibility(list), files[i].0))
  {
    hide Collected, IsUtf8, V.Visibility, V.Index, Reachable, InScope;
    forall s | s in InScope(Collected(files), V.Visibility(list), files[i].0)
      ensures Reachable(files, V.Index(list), files[i].0, s)
    {
      ScopesAreImports(files, list, i, s);
    }
  }

  lemma ReachInScope(files: seq<Named>, list: seq<V.SourceFile>, i: nat)
    requires SameNames(files, list) && i < |files| && files[i].0 in V.Index(list)
    requires !G.HasCycle(V.PublicGraph(V.Index(list)))
    ensures forall s :: Reachable(files, V.Index(list), files[i].0, s) ==>
                          s in InScope(Collected(files), V.Visibility(list), files[i].0)
  {
    hide Collected, IsUtf8, V.Visibility, V.Index, V.PublicGraph, Reachable, InScope;
    forall s | Reachable(files, V.Index(list), files[i].0, s)
      ensures s in InScope(Collected(files), V.Visibility(list), files[i].0)
    {
      ScopesAreImports(files, list, i, s);
    }
  }

  lemma ClosedGrows(fd: D.FileDescriptor, small: set<Str>, big: set<Str>)
    requires small <= big && FileClosed(fd, small)
    ensures FileClosed(fd, big)
  {
    hide IsUtf8, Closed;
    forall i | 0 <= i < |fd.messageType|
      ensures Closed(fd.messageType[i], big)
    {
      MessageGrows(fd.messageType[i], small, big);
    }
  }

  lemma {:induction false} MessageGrows(m: D.MessageDescriptor, small: set<Str>, big: set<Str>)
    requires small <= big && Closed(m, small)
    ensures Closed(m, big)
    decreases m
  {
    hide IsUtf8;
    forall i | 0 <= i < |m.nestedType|
      ensures Closed(m.nestedType[i], big)
    {
      MessageGrows(m.nestedType[i], small, big);
    }
  }

  /** The last loop of `compile`. */
  method ResolveAll(files: seq<Named>, t: Table, vis: Sight) returns (out: seq<Named>, errors: seq<Unknown>)
    ensures out == ResolvedWith(files, t, vis) && errors == ErrorsWith(files, t, vis)
    ensures errors == [] <==> SetClosed(out, t, vis)
  {
    hide FileErrors, ResolvedFile, FileClosed, InScope, ResolvedWith, SetClosed, IsUtf8;
    out, errors := [], [];
    assert ResolvedWith(files[..0], t, vis) == [];
    var i := 0;
    while i < |files|
      invariant 0 <= i <= |files|
      invariant out == ResolvedWith(files[..i], t, vis) && errors == ErrorsWith(files[..i], t, vis)
    {
      var (name, fd) := files[i];
      var r := new Resolver(InScope(t, vis, name));
      var fd' := r.ResolveReferences(fd);
      assert files[..i + 1][..i] == files[..i];
      ResolvedWithSnoc(files[..i + 1], t, vis);
      out, errors := out + [(name, fd')], errors + r.errors;
      i := i + 1;
    }
    assert files[..|files|] == files;
    ErrorFreeWith(files, t, vis);
  }
}
