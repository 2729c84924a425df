/**
 * What one memoised search finds on any graph, public cycles included (pipeline.rs): exactly what it can reach
 * through files not yet in the memo, and what the memo holds for the files where it stops.
 */
module ImportSearch {
  import opened Wrappers
  import opened ImportGraph
  import opened ImportVisibility
  import C = ImportCycles

  // ------------------------------------------------------------------------- its meaning

  /** A path that leaves only files outside `known`. */
  ghost predicate PathOutside(g: Graph, known: set<string>, p: seq<string>, a: string, b: string) {
    PathFromTo(g, p, a, b) && forall i :: 0 <= i < |p| - 1 ==> p[i] !in known
  }

  ghost predicate Via(g: Graph, known: set<string>, a: string, b: string) {
    exists p :: PathOutside(g, known, p, a, b)
  }

  /** `b` is met on the way, or is in the memo's entry for a file that is. */
  ghost predicate Found(files: Files, memo: Memo, root: string, b: string) {
    var g := PublicGraph(files);
    || Via(g, memo.Keys, root, b)
    || exists q :: q in memo && memo[q].Some? && Via(g, memo.Keys, root, q) && b in memo[q].value
  }

  ghost predicate AllFound(files: Files, memo: Memo, root: string, s: set<string>) {
    forall b :: b in s ==> Found(files, memo, root, b)
  }

  ghost predicate At(g: Graph, known: set<string>, root: string, n: string) {
    n == root || Via(g, known, root, n)
  }

  lemma ViaStep(g: Graph, known: set<string>, root: string, n: string, p: string)
    requires At(g, known, root, n) && n !in known && Edge(g, n, p)
    ensures Via(g, known, root, p)
  {
    if n == root {
      assert PathOutside(g, known, [n, p], root, p);
    } else {
      var q :| PathOutside(g, known, q, root, n);
      assert PathOutside(g, known, q + [p], root, p);
    }
  }

  // --------------------------------------------------------------------- during a search

  /** The memo of a search that began with `memo0`: the old entries as they were, the new ones with findings only. */
  ghost predicate Grown(files: Files, memo0: Memo, root: string, m: Memo) {
    && m.Keys <= files.Keys
    && (forall k :: k in memo0 ==> k in m && m[k] == memo0[k])
    && (forall k :: k in m && k !in memo0 && m[k].Some? ==> AllFound(files, memo0, root, m[k].value))
  }

  /** A file that has been followed is in the result, in the memo, and its old entry has gone into the result. */
  ghost predicate Taken(memo0: Memo, p: string, s: set<string>, m: Memo) {
    p in s && p in m && (p in memo0 && memo0[p].Some? ==> memo0[p].value <= s)
  }

  /** Everything that a file visited between `before` and `after` imports publicly has been taken. */
  ghost predicate Visited(g: Graph, memo0: Memo, before: Memo, after: Memo, s: set<string>) {
    forall v, p :: v in after && v !in before && Edge(g, v, p) ==> Taken(memo0, p, s, after)
  }

  lemma VisitedNothing(g: Graph, memo0: Memo, m: Memo, s: set<string>)
    ensures Visited(g, memo0, m, m, s)
  {
  }

  lemma VisitedJoin(g: Graph, memo0: Memo, a: Memo, b: Memo, c: Memo, s: set<string>, t: set<string>)
    requires Visited(g, memo0, a, b, s) && Visited(g, memo0, b, c, t) && s <= t && b.Keys <= c.Keys
    ensures Visited(g, memo0, a, c, t)
  {
    forall v, p | v in c && v !in a && Edge(g, v, p)
      ensures Taken(memo0, p, t, c)
    {
      if v in b { assert Taken(memo0, p, s, b); }
    }
  }

  /** What a finished search promises, seen from the search it is part of. */
  ghost predicate Searched(files: Files, memo0: Memo, root: string, before: Memo, s: set<string>, m: Memo) {
    && Grown(files, memo0, root, m) && before.Keys <= m.Keys
    && AllFound(files, memo0, root, s)
    && Visited(PublicGraph(files), memo0, before, m, s)
  }

  ghost predicate SearchResult(files: Files, memo0: Memo, root: string, name: string, memo: Memo)
    requires name in files && memo.Keys <= files.Keys
  {
    var (s, m) := Reexported(files, name, memo);
    Searched(files, memo0, root, memo, s, m) && name in m
    && (name in memo0 && memo0[name].Some? ==> memo0[name].value <= s)
  }

  lemma {:induction false} Search(files: Files, name: string, memo: Memo, memo0: Memo, root: string)
    requires name in files && Grown(files, memo0, root, memo)
    requires At(PublicGraph(files), memo0.Keys, root, name) && root !in memo0
    ensures SearchResult(files, memo0, root, name, memo)
    decreases Left(files, memo), 0
  {
    hide PublicGraph, Found, Via, ReexportedBy, Visited, Grown, At, SearchResult, LoopResult, Left;
    GrownKeys(files, memo0, root, memo);
    if name in memo {
      SearchKnown(files, name, memo, memo0, root);
    } else {
      var marked := memo[name := None];
      Marking(files, memo, name, None);
      SearchMarks(files, name, memo, memo0, root);
      SearchBy(files, name, 0, {}, marked, memo0, root);
      SearchNew(files, name, memo, memo0, root);
    }
  }

  lemma SearchKnown(files: Files, name: string, memo: Memo, memo0: Memo, root: string)
    requires name in files && name in memo && Grown(files, memo0, root, memo)
    requires At(PublicGraph(files), memo0.Keys, root, name) && root !in memo0
    ensures SearchResult(files, memo0, root, name, memo)
  {
    hide PublicGraph, Found, Visited, ReexportedBy, At;
    var s := if memo[name].Some? then memo[name].value else {};
    VisitedNothing(PublicGraph(files), memo0, memo, s);
    if memo[name].Some? { KnownFound(files, name, memo, memo0, root); }
    assert Reexported(files, name, memo) == (s, memo);
  }

  lemma SearchMarks(files: Files, name: string, memo: Memo, memo0: Memo, root: string)
    requires name in files && name !in memo && Grown(files, memo0, root, memo)
    ensures Grown(files, memo0, root, memo[name := None]) && name !in memo0
    ensures AllFound(files, memo0, root, {})
  {
    hide Found;
  }

  lemma SearchNew(files: Files, name: string, memo: Memo, memo0: Memo, root: string)
    requires name in files && name !in memo && name !in memo0 && memo.Keys <= files.Keys
    requires LoopResult(files, memo0, root, name, 0, {}, memo[name := None])
    ensures SearchResult(files, memo0, root, name, memo)
  {
    hide PublicGraph, Found, Visited, ReexportedBy, AllFound, TakenFrom;
    assert files[name][0..] == files[name];
    var (s, m) := ReexportedBy(files, files[name], {}, memo[name := None]);
    SearchDone(files, name, memo, s, m, memo0, root);
    assert Reexported(files, name, memo) == (s, m[name := Some(s)]) by {
      C.FewerLeft(files.Keys, memo.Keys, memo[name := None].Keys, name);
    }
  }

  lemma KnownFound(files: Files, name: string, memo: Memo, memo0: Memo, root: string)
    requires name in memo && memo[name].Some? && Grown(files, memo0, root, memo)
    requires At(PublicGraph(files), memo0.Keys, root, name) && root !in memo0
    ensures AllFound(files, memo0, root, memo[name].value)
  {
    hide PublicGraph, Via;
    if name in memo0 {
      forall b | b in memo[name].value
        ensures Found(files, memo0, root, b)
      {
        assert Via(PublicGraph(files), memo0.Keys, root, name);
      }
    }
  }

  /** The imports from `i` on have been taken. */
  ghost predicate TakenFrom(files: Files, memo0: Memo, name: string, i: nat, s: set<string>, m: Memo)
    requires name in files
  {
    forall j :: i <= j < |files[name]| && Follows(files, files[name][j]) ==> Taken(memo0, files[name][j].path, s, m)
  }

  ghost predicate LoopResult(files: Files, memo0: Memo, root: string, name: string, i: nat, acc: set<string>, memo: Memo)
    requires name in files && i <= |files[name]| && memo.Keys <= files.Keys
  {
    var (s, m) := ReexportedBy(files, files[name][i..], acc, memo);
    Searched(files, memo0, root, memo, s, m) && acc <= s && TakenFrom(files, memo0, name, i, s, m)
  }

  lemma {:induction false} SearchBy(files: Files, name: string, i: nat, acc: set<string>, memo: Memo, memo0: Memo,
                                   root: string)
    requires name in files && i <= |files[name]| && Grown(files, memo0, root, memo) && AllFound(files, memo0, root, acc)
    requires At(PublicGraph(files), memo0.Keys, root, name) && root !in memo0 && name !in memo0
    ensures LoopResult(files, memo0, root, name, i, acc, memo)
    decreases Left(files, memo), 1, |files[name]| - i
  {
    hide PublicGraph, Found, Via, At, Visited, Reexported, Taken, Grown, Left;
    var imports := files[name];
    GrownKeys(files, memo0, root, memo);
    if i == |imports| {
      VisitedNothing(PublicGraph(files), memo0, memo, acc);
    } else if Follows(files, imports[i]) {
      SearchFollow(files, name, i, acc, memo, memo0, root);
    } else {
      assert imports[i..][1..] == imports[i + 1..];
      SearchBy(files, name, i + 1, acc, memo, memo0, root);
    }
  }

  lemma GrownKeys(files: Files, memo0: Memo, root: string, m: Memo)
    requires Grown(files, memo0, root, m)
    ensures m.Keys <= files.Keys
  {
  }

  /** The turn of the loop that searches an import. */
  lemma {:induction false} SearchFollow(files: Files, name: string, i: nat, acc: set<string>, memo: Memo, memo0: Memo,
                                       root: string)
    requires name in files && i < |files[name]| && Follows(files, files[name][i])
    requires Grown(files, memo0, root, memo) && AllFound(files, memo0, root, acc)
    requires At(PublicGraph(files), memo0.Keys, root, name) && root !in memo0 && name !in memo0
    ensures memo.Keys <= files.Keys && LoopResult(files, memo0, root, name, i, acc, memo)
    decreases Left(files, memo), 1, |files[name]| - i, 0
  {
    hide PublicGraph, Found, Via, At, Visited, Reexported, Taken, Grown, AllFound, LoopResult, SearchResult, Left;
    var p := files[name][i].path;
    GrownKeys(files, memo0, root, memo);
    FollowsKnown(files, files[name][i]);
    FollowedIsMet(files, name, i, memo0, root);
    Search(files, p, memo, memo0, root);
    var (s, m) := Reexported(files, p, memo);
    AddFound(files, p, memo, acc, memo0, root);
    GrowsJoin(files, memo, m, m);
    SearchBy(files, name, i + 1, acc + {p} + s, m, memo0, root);
    JoinTurn(files, name, i, acc, memo, memo0, root);
  }

  lemma FollowedIsMet(files: Files, name: string, i: nat, memo0: Memo, root: string)
    requires name in files && i < |files[name]| && Follows(files, files[name][i]) && name !in memo0
    requires At(PublicGraph(files), memo0.Keys, root, name)
    ensures Via(PublicGraph(files), memo0.Keys, root, files[name][i].path)
    ensures At(PublicGraph(files), memo0.Keys, root, files[name][i].path)
    ensures Found(files, memo0, root, files[name][i].path)
  {
    hide Via;
    PublicMember(files[name], files[name][i].path);
    ViaStep(PublicGraph(files), memo0.Keys, root, name, files[name][i].path);
  }

  lemma AddFound(files: Files, p: string, memo: Memo, acc: set<string>, memo0: Memo, root: string)
    requires p in files && memo.Keys <= files.Keys && SearchResult(files, memo0, root, p, memo)
    requires AllFound(files, memo0, root, acc) && Found(files, memo0, root, p)
    ensures var (s, m) := Reexported(files, p, memo);
            AllFound(files, memo0, root, acc + {p} + s) && Grown(files, memo0, root, m) && memo.Keys <= m.Keys
  {
    hide Found, Reexported, Visited, Grown;
  }

  /** One turn and the rest of the loop make the loop. */
  lemma JoinTurn(files: Files, name: string, i: nat, acc: set<string>, memo: Memo, memo0: Memo, root: string)
    requires name in files && i < |files[name]| && Follows(files, files[name][i]) && memo.Keys <= files.Keys
    requires SearchResult(files, memo0, root, files[name][i].path, memo)
    requires var p := files[name][i].path;
             var (s, m) := Reexported(files, p, memo);
             LoopResult(files, memo0, root, name, i + 1, acc + {p} + s, m)
    ensures LoopResult(files, memo0, root, name, i, acc, memo)
  {
    hide Found, Reexported, Visited, Grown, AllFound, PublicGraph;
    var p := files[name][i].path;
    var (s, m) := Reexported(files, p, memo);
    assert files[name][i..][1..] == files[name][i + 1..];
    var (t, n) := ReexportedBy(files, files[name][i + 1..], acc + {p} + s, m);
    assert ReexportedBy(files, files[name][i..], acc, memo) == (t, n);
    VisitedJoin(PublicGraph(files), memo0, memo, m, n, s, t);
    assert Taken(memo0, p, t, n);
  }

  lemma SearchDone(files: Files, name: string, memo: Memo, s: set<string>, m: Memo, memo0: Memo, root: string)
    requires name in files && name !in memo && name !in memo0 && memo.Keys <= files.Keys
    requires Searched(files, memo0, root, memo[name := None], s, m) && TakenFrom(files, memo0, name, 0, s, m)
    ensures Searched(files, memo0, root, memo, s, m[name := Some(s)])
  {
    hide Found, AllFound;
    var g, m' := PublicGraph(files), m[name := Some(s)];
    forall v, p | v in m' && v !in memo && Edge(g, v, p)
      ensures Taken(memo0, p, s, m')
    {
      if v == name {
        PublicMember(files[name], p);
        var imp :| imp in files[name] && imp.kind.Public? && imp.path == p;
        var j :| 0 <= j < |files[name]| && files[name][j] == imp;
        assert Follows(files, files[name][j]);
      }
      assert Taken(memo0, p, s, m);
    }
  }

  // --------------------------------------------------------------------------- theorems

  lemma {:induction false} TakenAlong(files: Files, memo: Memo, s: set<string>, m: Memo, p: seq<string>)
    requires |p| >= 2 && IsPath(PublicGraph(files), p) && (forall i :: 0 <= i < |p| - 1 ==> p[i] !in memo)
    requires p[0] in m && Visited(PublicGraph(files), memo, memo, m, s)
    ensures Taken(memo, p[|p| - 1], s, m)
    decreases |p|
  {
    hide PublicGraph;
    assert Edge(PublicGraph(files), p[0], p[1]);
    assert Taken(memo, p[1], s, m);
    if |p| > 2 { TakenAlong(files, memo, s, m, p[1..]); }
  }

  /**
   * The answer for a file not in the memo, on any graph and under any memo: what can be reached through files that
   * are not in the memo, and what the memo holds for the files where these paths stop.
   */
  lemma SearchFinds(files: Files, name: string, memo: Memo, b: string)
    requires name in files && memo.Keys <= files.Keys && name !in memo
    ensures b in Reexported(files, name, memo).0 <==> Found(files, memo, name, b)
  {
    hide PublicGraph, Reexported;
    Search(files, name, memo, memo, name);
    var (s, m) := Reexported(files, name, memo);
    var g := PublicGraph(files);
    forall q | Via(g, memo.Keys, name, q)
      ensures Taken(memo, q, s, m)
    {
      var p :| PathOutside(g, memo.Keys, p, name, q);
      TakenAlong(files, memo, s, m, p);
    }
  }

  /** From an empty memo a search is exact on every graph: only entries left by earlier searches lose files. */
  lemma FreshSearchExact(files: Files, name: string, b: string)
    requires name in files
    ensures b in Reexported(files, name, map[]).0 <==> Reaches(PublicGraph(files), name, b)
  {
    hide PublicGraph, Reexported;
    SearchFinds(files, name, map[], b);
    var g := PublicGraph(files);
    var none: Memo := map[];
    if Reaches(g, name, b) {
      var p :| PathFromTo(g, p, name, b);
      assert PathOutside(g, none.Keys, p, name, b);
    }
  }

  lemma {:induction false} FirstKnown(g: Graph, known: set<string>, p: seq<string>, a: string, b: string)
    returns (q: string)
    requires PathFromTo(g, p, a, b) && a !in known
    ensures Via(g, known, a, q) && (q == b || (q in known && Reaches(g, q, b)))
  {
    q := b;
    var i := 0;
    while i < |p| - 1 && p[i] !in known
      invariant 0 <= i <= |p| - 1 && forall j :: 0 <= j < i ==> p[j] !in known
    {
      i := i + 1;
    }
    if i == |p| - 1 {
      assert PathOutside(g, known, p, a, b);
    } else {
      q := p[i];
      assert i > 0;
      assert PathOutside(g, known, p[..i + 1], a, q);
      PathReaches(g, p, i, |p| - 1);
    }
  }

  /** The entries at which a search for `name` stops hold only what their files reach. */
  ghost predicate SoundStops(files: Files, name: string, memo: Memo) {
    forall q :: q in memo && memo[q].Some? && Via(PublicGraph(files), memo.Keys, name, q)
      ==> OnlyReached(PublicGraph(files), q, memo[q].value)
  }

  /** Everything behind an entry at which the search stops is met elsewhere, or is in one of these entries. */
  ghost predicate StopsLoseNothing(files: Files, name: string, memo: Memo) {
    forall q, b :: q in memo && Via(PublicGraph(files), memo.Keys, name, q) && Reaches(PublicGraph(files), q, b)
      ==> Found(files, memo, name, b)
  }

  lemma FoundReaches(files: Files, name: string, memo: Memo, b: string)
    requires Found(files, memo, name, b) && SoundStops(files, name, memo)
    ensures Reaches(PublicGraph(files), name, b)
  {
    hide PublicGraph;
    var g := PublicGraph(files);
    if Via(g, memo.Keys, name, b) {
      ViaReaches(g, memo.Keys, name, b);
    } else {
      var q :| q in memo && memo[q].Some? && Via(g, memo.Keys, name, q) && b in memo[q].value;
      ViaReaches(g, memo.Keys, name, q);
      ReachesJoin(g, name, q, b);
    }
  }

  lemma ViaReaches(g: Graph, known: set<string>, a: string, b: string)
    requires Via(g, known, a, b)
    ensures Reaches(g, a, b)
  {
    var p :| PathOutside(g, known, p, a, b);
  }

  /**
   * The exact condition with earlier searches behind it: the answer is everything publicly reachable if and only if
   * the entries at which the search stops lose nothing between them.
   */
  lemma SearchExactIff(files: Files, name: string, memo: Memo)
    requires name in files && memo.Keys <= files.Keys && name !in memo && SoundStops(files, name, memo)
    ensures (forall b :: b in Reexported(files, name, memo).0 <==> Reaches(PublicGraph(files), name, b))
            <==> StopsLoseNothing(files, name, memo)
  {
    hide PublicGraph, Reexported, SoundStops, Found, Via;
    var g := PublicGraph(files);
    forall b
      ensures b in Reexported(files, name, memo).0 <==> Found(files, memo, name, b)
      ensures Found(files, memo, name, b) ==> Reaches(g, name, b)
    {
      SearchFinds(files, name, memo, b);
      if Found(files, memo, name, b) { FoundReaches(files, name, memo, b); }
    }
    if StopsLoseNothing(files, name, memo) {
      forall b | Reaches(g, name, b)
        ensures Found(files, memo, name, b)
      {
        ReachedIsFound(files, name, memo, b);
      }
    } else {
      var q, b :| q in memo && Via(g, memo.Keys, name, q) && Reaches(g, q, b) && !Found(files, memo, name, b);
      ViaReaches(g, memo.Keys, name, q);
      ReachesJoin(g, name, q, b);
    }
  }

  lemma ReachedIsFound(files: Files, name: string, memo: Memo, b: string)
    requires name !in memo && StopsLoseNothing(files, name, memo) && Reaches(PublicGraph(files), name, b)
    ensures Found(files, memo, name, b)
  {
    hide PublicGraph, Via;
    var p :| PathFromTo(PublicGraph(files), p, name, b);
    var q := FirstKnown(PublicGraph(files), memo.Keys, p, name, b);
  }

  // --------------------------------------------------------------------- whole visibility

  /** What asking for `p` under this memo gives, `p` included. */
  ghost predicate Gives(files: Files, memo: Memo, p: string, b: string) {
    || b == p
    || (if p in memo then memo[p].Some? && b in memo[p].value else Found(files, memo, p, b))
  }

  lemma AskGives(files: Files, p: string, memo: Memo, b: string)
    requires p in files && memo.Keys <= files.Keys
    ensures b in {p} + Reexported(files, p, memo).0 <==> Gives(files, memo, p, b)
  {
    hide Found, ReexportedBy;
    if p !in memo { SearchFinds(files, p, memo, b); }
  }

  /** The memo by the time `compute_visibility` asks for the `j`-th import of the `i`-th file. */
  function MemoAt(list: seq<SourceFile>, i: nat, j: nat): (m: Memo)
    requires i < |list| && j <= |list[i].imports|
    ensures m.Keys <= Index(list).Keys
  {
    VisibleUpTo(Index(list), list[i].imports, j, VisibilityUpTo(list, i).1).1
  }

  /** Whatever is asked for, the memo by then holds nothing in excess. */
  lemma MemoIsSound(list: seq<SourceFile>, i: nat, j: nat, name: string)
    requires i < |list| && j <= |list[i].imports|
    ensures SoundStops(Index(list), name, MemoAt(list, i, j))
  {
    hide Index, VisibilityUpTo, PublicGraph, Answered, OnlyReached, SeesOnly, SeesTame, VisibleUpTo;
    VisibilityGood(list, i);
    VisibleGood(Index(list), list[i].imports, j, VisibilityUpTo(list, i).1);
  }

  /** `b` is given by asking for the `j`-th import of the `i`-th file when its turn comes. */
  ghost predicate GivenBy(list: seq<SourceFile>, i: nat, j: nat, b: string)
    requires i < |list| && j < |list[i].imports|
  {
    list[i].imports[j].path in Index(list) && Gives(Index(list), MemoAt(list, i, j), list[i].imports[j].path, b)
  }

  lemma {:induction false} VisibleGives(list: seq<SourceFile>, i: nat, j: nat, b: string)
    requires i < |list| && j <= |list[i].imports|
    ensures b in VisibleUpTo(Index(list), list[i].imports, j, VisibilityUpTo(list, i).1).0
            <==> exists k :: 0 <= k < j && GivenBy(list, i, k, b)
  {
    hide Index, VisibilityUpTo, Gives, Reexported;
    if j > 0 {
      VisibleGives(list, i, j - 1, b);
      var p := list[i].imports[j - 1].path;
      if p in Index(list) { AskGives(Index(list), p, MemoAt(list, i, j - 1), b); }
      assert GivenBy(list, i, j - 1, b) || !GivenBy(list, i, j - 1, b);
    }
  }

  /** The name is not given again to a later file. */
  predicate LastOfName(list: seq<SourceFile>, i: nat)
    requires i < |list|
  {
    forall k :: i < k < |list| ==> list[k].name != list[i].name
  }

  /** Asking for one of the imports of the `i`-th file gives `b`. */
  ghost predicate Given(list: seq<SourceFile>, i: nat, b: string)
    requires i < |list|
  {
    exists k :: 0 <= k < |list[i].imports| && GivenBy(list, i, k, b)
  }

  /** What a file sees, on any graph and in any order: what asking for its imports gives when their turn comes. */
  lemma VisibilityFinds(list: seq<SourceFile>, i: nat, b: string)
    requires i < |list| && LastOfName(list, i)
    ensures list[i].name in Visibility(list)
    ensures b in Visibility(list)[list[i].name] <==> Given(list, i, b)
  {
    hide Index, VisibleUpTo, GivenBy;
    VisibleGives(list, i, |list[i].imports|, b);
    AnswerStays(list, i + 1, |list|, list[i].name);
  }

  ghost predicate SomeShows(files: Files, imports: seq<Import>, b: string) {
    exists j :: 0 <= j < |imports| && imports[j].path in files && Shows(files, imports[j].path, b)
  }

  ghost predicate SeesExactly(files: Files, imports: seq<Import>, vis: set<string>) {
    forall b :: b in vis <==> SomeShows(files, imports, b)
  }

  /** Whatever is behind some import of the file, asking for one of them gives. */
  ghost predicate NothingMissing(list: seq<SourceFile>, i: nat)
    requires i < |list|
  {
    forall b :: SomeShows(Index(list), list[i].imports, b) ==> Given(list, i, b)
  }

  lemma {:induction false} IndexLast(list: seq<SourceFile>, i: nat)
    requires i < |list| && LastOfName(list, i)
    ensures list[i].name in Index(list) && Index(list)[list[i].name] == list[i].imports
  {
    if i < |list| - 1 { IndexLast(list[..|list| - 1], i); }
  }

  /** The exact condition for one file of a whole compilation: it sees exactly what it should if nothing is missing. */
  lemma VisibilityExactIff(list: seq<SourceFile>, i: nat)
    requires i < |list| && LastOfName(list, i)
    ensures list[i].name in Visibility(list)
    ensures SeesExactly(Index(list), list[i].imports, Visibility(list)[list[i].name]) <==> NothingMissing(list, i)
  {
    hide Index, Visibility, Given, SeesTame, SomeShows, LastOfName;
    var (files, imports, name) := (Index(list), list[i].imports, list[i].name);
    IndexLast(list, i);
    VisibilityAnswers(list);
    forall b: string
      ensures b in Visibility(list)[name] <==> Given(list, i, b)
    {
      VisibilityFinds(list, i, b);
    }
    forall b | b in Visibility(list)[name]
      ensures SomeShows(files, imports, b)
    {
      SeenIsShown(files, imports, Visibility(list)[name], b);
    }
  }

  lemma SeenIsShown(files: Files, imports: seq<Import>, vis: set<string>, b: string)
    requires SeesOnly(files, imports, vis) && b in vis
    ensures SomeShows(files, imports, b)
  {
  }
}
