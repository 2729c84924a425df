/** Public re-exports and file visibility (pipeline.rs): a memoised closure against plain reachability. */
module ImportVisibility {
  import opened Wrappers
  import opened ImportGraph
  import C = ImportCycles

  datatype ImportKind = Default | Public | Weak

  datatype Import = Import(path: string, kind: ImportKind)

  type Files = map<string, seq<Import>>

  /** A name in the memo without a set is being computed. */
  type Memo = map<string, Option<set<string>>>

  function PublicPaths(imports: seq<Import>): seq<string> {
    if imports == [] then []
    else (if imports[0].kind.Public? then [imports[0].path] else []) + PublicPaths(imports[1..])
  }

  function PublicGraph(files: Files): Graph {
    map n | n in files :: PublicPaths(files[n])
  }

  // ------------------------------------------------------------------ the memoised search

  /** A public import of a known file. */
  predicate Follows(files: Files, imp: Import) {
    imp.kind.Public? && imp.path in files
  }

  /** `reexported_of`: the set it returns and the memo it leaves. */
  function Reexported(files: Files, name: string, memo: Memo): (r: (set<string>, Memo))
    requires name in files && memo.Keys <= files.Keys
    ensures memo.Keys + {name} <= r.1.Keys <= files.Keys
    decreases |files.Keys - memo.Keys|, 0
  {
    if name in memo then (if memo[name].Some? then memo[name].value else {}, memo)
    else
      var marked := memo[name := None];
      C.FewerLeft(files.Keys, memo.Keys, marked.Keys, name);
      var (s, m) := ReexportedBy(files, files[name], {}, marked);
      (s, m[name := Some(s)])
  }

  /** The loop of `reexported_of` over the imports still to come. */
  function ReexportedBy(files: Files, imports: seq<Import>, acc: set<string>, memo: Memo): (r: (set<string>, Memo))
    requires memo.Keys <= files.Keys
    ensures memo.Keys <= r.1.Keys <= files.Keys
    decreases |files.Keys - memo.Keys|, 1, |imports|
  {
    if imports == [] then (acc, memo)
    else if Follows(files, imports[0]) then
      var (s, m) := Reexported(files, imports[0].path, memo);
      C.SubsetSize(files.Keys - m.Keys, files.Keys - memo.Keys);
      ReexportedBy(files, imports[1..], acc + {imports[0].path} + s, m)
    else ReexportedBy(files, imports[1..], acc, memo)
  }

  /** What the search returns, and the memo it leaves behind. */
  ghost predicate Answers(files: Files, name: string, memo: Memo, s: set<string>, m: Memo)
    requires name in files && memo.Keys <= files.Keys
  {
    (s, m) == Reexported(files, name, memo)
  }

  ghost predicate LoopAnswers(files: Files, imports: seq<Import>, memo: Memo, s: set<string>, m: Memo)
    requires memo.Keys <= files.Keys
  {
    (s, m) == ReexportedBy(files, imports, {}, memo)
  }

  /** The rest of the loop ends as the whole loop would have. */
  ghost predicate SameEnd(files: Files, imports: seq<Import>, i: nat, acc: set<string>, memo: Memo, start: Memo)
    requires memo.Keys <= files.Keys && start.Keys <= files.Keys && i <= |imports|
  {
    ReexportedBy(files, imports[i..], acc, memo) == ReexportedBy(files, imports, {}, start)
  }

  lemma SameEndCall(files: Files, imports: seq<Import>, i: nat, acc: set<string>, memo: Memo, start: Memo,
                    s: set<string>, m: Memo)
    requires memo.Keys <= files.Keys && start.Keys <= files.Keys && i < |imports|
    requires SameEnd(files, imports, i, acc, memo, start)
    requires Follows(files, imports[i]) && Answers(files, imports[i].path, memo, s, m)
    ensures m.Keys <= files.Keys && SameEnd(files, imports, i + 1, acc + {imports[i].path} + s, m, start)
  {
    hide Reexported;
    assert imports[i..][1..] == imports[i + 1..];
  }

  lemma SameEndSkip(files: Files, imports: seq<Import>, i: nat, acc: set<string>, memo: Memo, start: Memo)
    requires memo.Keys <= files.Keys && start.Keys <= files.Keys && i < |imports|
    requires SameEnd(files, imports, i, acc, memo, start) && !Follows(files, imports[i])
    ensures SameEnd(files, imports, i + 1, acc, memo, start)
  {
    hide Reexported;
    assert imports[i..][1..] == imports[i + 1..];
  }

  lemma SameEndStart(files: Files, imports: seq<Import>, start: Memo)
    requires start.Keys <= files.Keys
    ensures SameEnd(files, imports, 0, {}, start, start)
  {
    assert imports[0..] == imports;
  }

  lemma SameEndStop(files: Files, imports: seq<Import>, acc: set<string>, memo: Memo, start: Memo)
    requires start.Keys <= files.Keys && memo.Keys <= files.Keys
    requires SameEnd(files, imports, |imports|, acc, memo, start)
    ensures LoopAnswers(files, imports, start, acc, memo)
  {
    assert imports[|imports|..] == [];
  }

  lemma AnswersKnown(files: Files, name: string, memo: Memo)
    requires name in files && memo.Keys <= files.Keys && name in memo
    ensures Answers(files, name, memo, if memo[name].Some? then memo[name].value else {}, memo)
  {
  }

  lemma AnswersNew(files: Files, name: string, memo: Memo, s: set<string>, m: Memo)
    requires name in files && memo.Keys <= files.Keys && name !in memo
    requires LoopAnswers(files, files[name], memo[name := None], s, m)
    ensures Answers(files, name, memo, s, m[name := Some(s)])
  {
  }

  /** How many files the memo does not hold yet. */
  ghost function Left(files: Files, memo: Memo): nat {
    |files.Keys - memo.Keys|
  }

  ghost predicate Grows(a: Memo, b: Memo) {
    a.Keys <= b.Keys
  }

  lemma GrowsJoin(files: Files, a: Memo, b: Memo, c: Memo)
    ensures Grows(a, a)
    ensures Grows(a, b) && Grows(b, c) ==> Grows(a, c)
    ensures Grows(a, b) ==> Left(files, b) <= Left(files, a)
  {
    if Grows(a, b) { C.SubsetSize(files.Keys - b.Keys, files.Keys - a.Keys); }
  }

  lemma Marking(files: Files, memo: Memo, name: string, v: Option<set<string>>)
    requires name in files && memo.Keys <= files.Keys
    ensures Grows(memo, memo[name := v]) && memo[name := v].Keys <= files.Keys
    ensures name !in memo ==> Left(files, memo[name := v]) < Left(files, memo)
  {
    if name !in memo { C.FewerLeft(files.Keys, memo.Keys, memo[name := v].Keys, name); }
  }

  /** `reexported_of` as the original runs it. */
  method ReexportedOf(files: Files, name: string, memo: Memo) returns (res: set<string>, memo': Memo)
    requires name in files && memo.Keys <= files.Keys
    ensures Grows(memo, memo') && memo'.Keys <= files.Keys
    ensures Answers(files, name, memo, res, memo')
    decreases Left(files, memo), 0
  {
    hide Answers, LoopAnswers, Grows, Left;
    GrowsJoin(files, memo, memo, memo);
    if name in memo {
      AnswersKnown(files, name, memo);
      return if memo[name].Some? then memo[name].value else {}, memo;
    }
    Marking(files, memo, name, None);
    var marked := memo[name := None];
    res, memo' := ReexportLoop(files, files[name], marked);
    AnswersNew(files, name, memo, res, memo');
    Marking(files, memo', name, Some(res));
    GrowsJoin(files, memo, marked, memo');
    GrowsJoin(files, memo, memo', memo'[name := Some(res)]);
    memo' := memo'[name := Some(res)];
  }

  method ReexportLoop(files: Files, imports: seq<Import>, memo: Memo) returns (res: set<string>, memo': Memo)
    requires memo.Keys <= files.Keys
    ensures Grows(memo, memo') && memo'.Keys <= files.Keys
    ensures LoopAnswers(files, imports, memo, res, memo')
    decreases Left(files, memo), 1
  {
    hide Answers, LoopAnswers, SameEnd, Follows, Grows, Left;
    res, memo' := {}, memo;
    SameEndStart(files, imports, memo);
    GrowsJoin(files, memo, memo, memo);
    var i := 0;
    while i < |imports|
      invariant 0 <= i <= |imports|
      invariant Grows(memo, memo') && memo'.Keys <= files.Keys
      invariant SameEnd(files, imports, i, res, memo', memo)
    {
      if Follows(files, imports[i]) {
        GrowsJoin(files, memo, memo', memo');
        FollowsKnown(files, imports[i]);
        var s, m := ReexportedOf(files, imports[i].path, memo');
        SameEndCall(files, imports, i, res, memo', memo, s, m);
        GrowsJoin(files, memo, memo', m);
        res, memo' := res + {imports[i].path} + s, m;
      } else {
        SameEndSkip(files, imports, i, res, memo', memo);
      }
      i := i + 1;
    }
    SameEndStop(files, imports, res, memo', memo);
  }

  lemma FollowsKnown(files: Files, imp: Import)
    requires Follows(files, imp)
    ensures imp.path in files
  {
  }

  // ------------------------------------------------------------------------- its meaning

  /** No public cycle can be reached from `n`. */
  ghost predicate Tame(g: Graph, n: string) {
    !Reaches(g, n, n) && forall b :: Reaches(g, n, b) ==> !Reaches(g, b, b)
  }

  ghost predicate OnlyReached(g: Graph, n: string, s: set<string>) {
    forall b :: b in s ==> Reaches(g, n, b)
  }

  ghost predicate AllReached(g: Graph, n: string, s: set<string>) {
    forall b :: Reaches(g, n, b) ==> b in s
  }

  /** What a computed set promises: never too much, and everything when no cycle is in reach. */
  ghost predicate Meant(g: Graph, n: string, s: set<string>) {
    OnlyReached(g, n, s) && (Tame(g, n) ==> AllReached(g, n, s))
  }

  ghost predicate Good(files: Files, memo: Memo, stack: seq<string>) {
    && memo.Keys <= files.Keys
    && IsPath(PublicGraph(files), stack)
    && (forall k :: k in memo && memo[k].Some? ==> Meant(PublicGraph(files), k, memo[k].value))
    && (forall k :: k in memo && memo[k].None? ==> k in stack)
  }

  ghost predicate Enters(files: Files, stack: seq<string>, name: string) {
    name in files && (stack != [] ==> Edge(PublicGraph(files), stack[|stack| - 1], name))
  }

  lemma PublicMember(imports: seq<Import>, p: string)
    ensures p in PublicPaths(imports) <==> exists imp :: imp in imports && imp.kind.Public? && imp.path == p
  {
    if imports != [] {
      PublicMember(imports[1..], p);
      assert forall imp :: imp in imports <==> imp == imports[0] || imp in imports[1..];
    }
  }

  /** One file re-exports another if and only if it has a public import of that name, and both are known. */
  lemma PublicEdges(files: Files, a: string, b: string)
    ensures Edge(PublicGraph(files), a, b) <==>
            a in files && b in files && exists imp :: imp in files[a] && imp.kind == Public && imp.path == b
  {
    if a in files { PublicMember(files[a], b); }
  }

  lemma TameStep(g: Graph, a: string, b: string)
    requires Tame(g, a) && Edge(g, a, b)
    ensures Tame(g, b)
  {
    ReachesEdge(g, a, b);
    forall c | Reaches(g, b, c)
      ensures Reaches(g, a, c)
    {
      ReachesJoin(g, a, b, c);
    }
  }

  /** A file that is being computed while it is asked for again lies on a public cycle. */
  lemma InProgressIsWild(files: Files, memo: Memo, stack: seq<string>, name: string)
    requires Good(files, memo, stack) && Enters(files, stack, name)
    requires name in memo && memo[name].None?
    ensures !Tame(PublicGraph(files), name)
  {
    var g := PublicGraph(files);
    var i :| 0 <= i < |stack| && stack[i] == name;
    assert PathFromTo(g, stack[i..] + [name], name, name);
  }

  /** The imports seen so far have put their reach into `acc`. */
  ghost predicate Covered(files: Files, imports: seq<Import>, acc: set<string>) {
    forall imp, b | imp in imports && Follows(files, imp) ::
      b == imp.path || Reaches(PublicGraph(files), imp.path, b) ==> b in acc
  }

  lemma CoveredAll(files: Files, name: string, acc: set<string>)
    requires name in files && Covered(files, files[name], acc)
    ensures AllReached(PublicGraph(files), name, acc)
  {
    var g := PublicGraph(files);
    forall c | Reaches(g, name, c)
      ensures c in acc
    {
      var b := ReachesFirst(g, name, c);
      PublicMember(files[name], b);
      var imp :| imp in files[name] && imp.kind.Public? && imp.path == b;
      assert imp.path in files;
    }
  }

  lemma CoverMore(files: Files, name: string, i: nat, acc: set<string>, s: set<string>)
    requires name in files && i < |files[name]| && Follows(files, files[name][i])
    requires var g := PublicGraph(files);
             && OnlyReached(g, name, acc) && Meant(g, files[name][i].path, s)
             && (Tame(g, name) ==> Covered(files, files[name][..i], acc))
    ensures var (g, acc') := (PublicGraph(files), acc + {files[name][i].path} + s);
            && OnlyReached(g, name, acc')
            && (Tame(g, name) ==> Covered(files, files[name][..i + 1], acc'))
  {
    var g, p := PublicGraph(files), files[name][i].path;
    PublicMember(files[name], p);
    assert Edge(g, name, p);
    ReachesEdge(g, name, p);
    forall b | b in s
      ensures Reaches(g, name, b)
    {
      ReachesJoin(g, name, p, b);
    }
    if Tame(g, name) { TameStep(g, name, p); }
    assert files[name][..i + 1] == files[name][..i] + [files[name][i]];
  }

  ghost predicate MeantResult(files: Files, name: string, memo: Memo, stack: seq<string>)
    requires name in files && memo.Keys <= files.Keys
  {
    var r := Reexported(files, name, memo);
    Meant(PublicGraph(files), name, r.0) && Good(files, r.1, stack)
  }

  lemma {:induction false} ReexportedMeaning(files: Files, name: string, memo: Memo, stack: seq<string>)
    requires Good(files, memo, stack) && Enters(files, stack, name)
    ensures MeantResult(files, name, memo, stack)
    decreases Left(files, memo), 0
  {
    hide PublicGraph, Tame, Good, Meant, OnlyReached, Covered, ReexportedBy, Reexported, MeantResult, MeantLoop, Left;
    GoodFacts(files, memo, stack, name);
    if name in memo {
      KnownMeaning(files, name, memo, stack);
    } else {
      Marking(files, memo, name, None);
      EnterStack(files, memo, stack, name);
      EmptyCover(files, name);
      ReexportedByMeaning(files, name, 0, {}, memo[name := None], stack + [name]);
      assert files[name][0..] == files[name];
      NewMeaning(files, name, memo, stack);
    }
  }

  /** Once the loop is done the file leaves the stack, with its answer in the memo. */
  lemma NewMeaning(files: Files, name: string, memo: Memo, stack: seq<string>)
    requires name in files && name !in memo && memo.Keys <= files.Keys
    requires MeantLoop(files, name, files[name], {}, memo[name := None], stack + [name])
    ensures MeantResult(files, name, memo, stack)
  {
    hide PublicGraph, Good, Meant, ReexportedBy, Reexported;
    var r := ReexportedBy(files, files[name], {}, memo[name := None]);
    LeaveStack(files, r.1, stack, name, r.0);
    AnswersNew(files, name, memo, r.0, r.1);
  }

  lemma KnownMeaning(files: Files, name: string, memo: Memo, stack: seq<string>)
    requires Good(files, memo, stack) && Enters(files, stack, name) && name in memo
    requires memo.Keys <= files.Keys && name in files && (memo[name].Some? ==> Meant(PublicGraph(files), name, memo[name].value))
    ensures MeantResult(files, name, memo, stack)
  {
    hide PublicGraph, Tame, Good, Meant, ReexportedBy, Enters;
    if memo[name].None? {
      InProgressIsWild(files, memo, stack, name);
      EmptyMeant(PublicGraph(files), name);
    }
  }

  lemma EmptyMeant(g: Graph, name: string)
    requires !Tame(g, name)
    ensures Meant(g, name, {})
  {
  }

  lemma EmptyCover(files: Files, name: string)
    requires name in files
    ensures OnlyReached(PublicGraph(files), name, {}) && Covered(files, files[name][..0], {})
  {
  }

  lemma EnterStack(files: Files, memo: Memo, stack: seq<string>, name: string)
    requires Good(files, memo, stack) && Enters(files, stack, name)
    ensures Good(files, memo[name := None], stack + [name])
  {
  }

  lemma LeaveStack(files: Files, memo: Memo, stack: seq<string>, name: string, s: set<string>)
    requires Good(files, memo, stack + [name]) && name in files && Meant(PublicGraph(files), name, s)
    ensures Good(files, memo[name := Some(s)], stack)
  {
    var g, inner := PublicGraph(files), stack + [name];
    assert forall k :: k in inner <==> k in stack || k == name;
    assert forall i :: 0 <= i < |stack| ==> inner[i] == stack[i];
  }

  ghost predicate MeantLoop(files: Files, name: string, imports: seq<Import>, acc: set<string>, memo: Memo,
                            stack: seq<string>)
    requires memo.Keys <= files.Keys
  {
    var r := ReexportedBy(files, imports, acc, memo);
    Meant(PublicGraph(files), name, r.0) && Good(files, r.1, stack)
  }

  lemma {:induction false} ReexportedByMeaning(files: Files, name: string, i: nat, acc: set<string>, memo: Memo,
                                              stack: seq<string>)
    requires name in files && i <= |files[name]| && stack != [] && stack[|stack| - 1] == name
    requires Good(files, memo, stack) && OnlyReached(PublicGraph(files), name, acc)
    requires Tame(PublicGraph(files), name) ==> Covered(files, files[name][..i], acc)
    ensures MeantLoop(files, name, files[name][i..], acc, memo, stack)
    decreases Left(files, memo), 1, |files[name]| - i
  {
    hide PublicGraph, Tame, Good, Covered, OnlyReached, AllReached;
    var imports := files[name];
    GoodFacts(files, memo, stack, name);
    if i == |imports| {
      assert imports[..i] == imports;
      if Tame(PublicGraph(files), name) { CoveredAll(files, name, acc); }
    } else if Follows(files, imports[i]) {
      ReexportedByStep(files, name, i, acc, memo, stack);
    } else {
      assert imports[i..][1..] == imports[i + 1..];
      CoverSame(files, name, i, acc);
      ReexportedByMeaning(files, name, i + 1, acc, memo, stack);
    }
  }

  /** The turn of the loop that recurses. */
  lemma {:induction false} ReexportedByStep(files: Files, name: string, i: nat, acc: set<string>, memo: Memo,
                                           stack: seq<string>)
    requires name in files && i < |files[name]| && stack != [] && stack[|stack| - 1] == name
    requires Follows(files, files[name][i])
    requires Good(files, memo, stack) && OnlyReached(PublicGraph(files), name, acc)
    requires Tame(PublicGraph(files), name) ==> Covered(files, files[name][..i], acc)
    ensures MeantLoop(files, name, files[name][i..], acc, memo, stack)
    decreases Left(files, memo), 1, |files[name]| - i, 0
  {
    hide PublicGraph, Tame, Good, Covered, OnlyReached, AllReached, Meant, Reexported;
    var path := files[name][i].path;
    EntersPublic(files, name, i, stack);
    ReexportedMeaning(files, path, memo, stack);
    var (s, m) := Reexported(files, path, memo);
    CoverMore(files, name, i, acc, s);
    C.SubsetSize(files.Keys - m.Keys, files.Keys - memo.Keys);
    ReexportedByMeaning(files, name, i + 1, acc + {path} + s, m, stack);
    assert files[name][i..][1..] == files[name][i + 1..];
  }

  lemma GoodFacts(files: Files, memo: Memo, stack: seq<string>, k: string)
    requires Good(files, memo, stack)
    ensures memo.Keys <= files.Keys
    ensures k in memo && memo[k].Some? ==> Meant(PublicGraph(files), k, memo[k].value)
  {
  }

  lemma EntersPublic(files: Files, name: string, i: nat, stack: seq<string>)
    requires name in files && i < |files[name]| && stack != [] && stack[|stack| - 1] == name
    requires Follows(files, files[name][i])
    ensures Enters(files, stack, files[name][i].path)
  {
    PublicMember(files[name], files[name][i].path);
  }

  lemma CoverSame(files: Files, name: string, i: nat, acc: set<string>)
    requires name in files && i < |files[name]| && !Follows(files, files[name][i])
    ensures Covered(files, files[name][..i], acc) ==> Covered(files, files[name][..i + 1], acc)
  {
    assert files[name][..i + 1] == files[name][..i] + [files[name][i]];
  }

  // ------------------------------------------------------------------- the visible files

  datatype SourceFile = SourceFile(name: string, imports: seq<Import>)

  /** The index by name; a repeated name keeps its last file. */
  function Index(list: seq<SourceFile>): (files: Files)
    ensures forall n :: n in files <==> exists i :: 0 <= i < |list| && list[i].name == n
  {
    if list == [] then map[]
    else
      var (front, last) := (list[..|list| - 1], list[|list| - 1]);
      var files := Index(front);
      files[last.name := last.imports]
  }

  /** `n` is `p`, or `p` re-exports `n` through public imports. */
  ghost predicate Shows(files: Files, p: string, n: string) {
    n == p || Reaches(PublicGraph(files), p, n)
  }

  ghost predicate SeesOnly(files: Files, imports: seq<Import>, vis: set<string>) {
    forall b :: b in vis ==> exists i :: 0 <= i < |imports| && imports[i].path in files && Shows(files, imports[i].path, b)
  }

  ghost predicate SeesAllOf(files: Files, p: string, vis: set<string>) {
    forall b :: Shows(files, p, b) ==> b in vis
  }

  /** Everything behind each known import from which no public cycle can be reached. */
  ghost predicate SeesTame(files: Files, imports: seq<Import>, vis: set<string>) {
    forall i :: 0 <= i < |imports| && imports[i].path in files && Tame(PublicGraph(files), imports[i].path)
      ==> SeesAllOf(files, imports[i].path, vis)
  }

  lemma SeeMore(files: Files, imports: seq<Import>, i: nat, vis: set<string>, s: set<string>)
    requires i < |imports| && imports[i].path in files && Meant(PublicGraph(files), imports[i].path, s)
    requires SeesOnly(files, imports[..i], vis) && SeesTame(files, imports[..i], vis)
    ensures SeesOnly(files, imports[..i + 1], vis + {imports[i].path} + s)
    ensures SeesTame(files, imports[..i + 1], vis + {imports[i].path} + s)
  {
    var (before, after, vis') := (imports[..i], imports[..i + 1], vis + {imports[i].path} + s);
    forall b | b in vis'
      ensures exists j :: 0 <= j < |after| && after[j].path in files && Shows(files, after[j].path, b)
    {
      if b in vis {
        var j :| 0 <= j < |before| && before[j].path in files && Shows(files, before[j].path, b);
        assert after[j] == before[j];
      } else {
        assert after[i] == imports[i] && Shows(files, after[i].path, b);
      }
    }
    forall j | 0 <= j < |after| && after[j].path in files && Tame(PublicGraph(files), after[j].path)
      ensures SeesAllOf(files, after[j].path, vis')
    {
      if j < i { assert after[j] == before[j]; }
    }
  }

  lemma SeeSame(files: Files, imports: seq<Import>, i: nat, vis: set<string>)
    requires i < |imports| && imports[i].path !in files
    requires SeesOnly(files, imports[..i], vis) && SeesTame(files, imports[..i], vis)
    ensures SeesOnly(files, imports[..i + 1], vis) && SeesTame(files, imports[..i + 1], vis)
  {
    var before, after := imports[..i], imports[..i + 1];
    forall b | b in vis
      ensures exists j :: 0 <= j < |after| && after[j].path in files && Shows(files, after[j].path, b)
    {
      var j :| 0 <= j < |before| && before[j].path in files && Shows(files, before[j].path, b);
      assert after[j] == before[j];
    }
    assert forall j :: 0 <= j < i ==> after[j] == before[j];
  }

  lemma SeeNothing(files: Files, imports: seq<Import>)
    ensures SeesOnly(files, imports[..0], {}) && SeesTame(files, imports[..0], {})
  {
  }

  lemma MeantAnswer(files: Files, name: string, memo: Memo, s: set<string>, m: Memo)
    requires Good(files, memo, []) && name in files && Answers(files, name, memo, s, m)
    ensures Meant(PublicGraph(files), name, s) && Good(files, m, [])
  {
    ReexportedMeaning(files, name, memo, []);
  }

  lemma GoodStart(files: Files)
    ensures Good(files, map[], [])
  {
  }

  /** What the first `i` imports of a file show it, and the memo they leave. */
  function VisibleUpTo(files: Files, imports: seq<Import>, i: nat, memo: Memo): (r: (set<string>, Memo))
    requires memo.Keys <= files.Keys && i <= |imports|
    ensures r.1.Keys <= files.Keys
  {
    if i == 0 then ({}, memo)
    else
      var (vis, m) := VisibleUpTo(files, imports, i - 1, memo);
      if imports[i - 1].path in files then
        var (s, m') := Reexported(files, imports[i - 1].path, m);
        (vis + {imports[i - 1].path} + s, m')
      else (vis, m)
  }

  ghost predicate Shown(files: Files, imports: seq<Import>, i: nat, memo: Memo, vis: set<string>, m: Memo)
    requires memo.Keys <= files.Keys && i <= |imports|
  {
    VisibleUpTo(files, imports, i, memo) == (vis, m)
  }

  lemma ShownStart(files: Files, imports: seq<Import>, memo: Memo)
    requires memo.Keys <= files.Keys
    ensures Shown(files, imports, 0, memo, {}, memo)
  {
  }

  lemma ShownMore(files: Files, imports: seq<Import>, i: nat, memo: Memo, vis: set<string>, m: Memo)
    requires memo.Keys <= files.Keys && i < |imports| && Shown(files, imports, i, memo, vis, m) && m.Keys <= files.Keys
    ensures imports[i].path !in files ==> Shown(files, imports, i + 1, memo, vis, m)
    ensures forall s, m' :: imports[i].path in files && Answers(files, imports[i].path, m, s, m')
              ==> Shown(files, imports, i + 1, memo, vis + {imports[i].path} + s, m')
  {
    hide Reexported;
  }

  lemma {:induction false} VisibleGood(files: Files, imports: seq<Import>, i: nat, memo: Memo)
    requires Good(files, memo, []) && memo.Keys <= files.Keys && i <= |imports|
    ensures var (vis, m) := VisibleUpTo(files, imports, i, memo);
            Good(files, m, []) && SeesOnly(files, imports[..i], vis) && SeesTame(files, imports[..i], vis)
  {
    hide Good, Answers, SeesOnly, SeesTame, Meant, PublicGraph, Reexported;
    if i == 0 {
      SeeNothing(files, imports);
    } else {
      VisibleGood(files, imports, i - 1, memo);
      var (vis, m) := VisibleUpTo(files, imports, i - 1, memo);
      if imports[i - 1].path in files {
        var (s, m') := Reexported(files, imports[i - 1].path, m);
        assert Answers(files, imports[i - 1].path, m, s, m') by { AnswersItself(files, imports[i - 1].path, m); }
        MeantAnswer(files, imports[i - 1].path, m, s, m');
        SeeMore(files, imports, i - 1, vis, s);
      } else {
        SeeSame(files, imports, i - 1, vis);
      }
    }
  }

  lemma AnswersItself(files: Files, name: string, memo: Memo)
    requires name in files && memo.Keys <= files.Keys
    ensures Answers(files, name, memo, Reexported(files, name, memo).0, Reexported(files, name, memo).1)
  {
    hide Reexported;
  }

  /** What `compute_visibility` has after `i` files: the answers, and the memo. */
  function VisibilityUpTo(list: seq<SourceFile>, i: nat): (r: (map<string, set<string>>, Memo))
    requires i <= |list|
    ensures r.1.Keys <= Index(list).Keys
  {
    if i == 0 then (map[], map[])
    else
      var (out, memo) := VisibilityUpTo(list, i - 1);
      var (vis, m) := VisibleUpTo(Index(list), list[i - 1].imports, |list[i - 1].imports|, memo);
      (out[list[i - 1].name := vis], m)
  }

  function Visibility(list: seq<SourceFile>): map<string, set<string>> {
    VisibilityUpTo(list, |list|).0
  }

  ghost predicate VisibleSoFar(list: seq<SourceFile>, i: nat, out: map<string, set<string>>, memo: Memo)
    requires i <= |list|
  {
    VisibilityUpTo(list, i) == (out, memo)
  }

  lemma SoFarStart(list: seq<SourceFile>)
    ensures VisibleSoFar(list, 0, map[], map[])
  {
  }

  lemma SoFarMore(list: seq<SourceFile>, i: nat, out: map<string, set<string>>, memo: Memo, vis: set<string>, m: Memo)
    requires i < |list| && VisibleSoFar(list, i, out, memo) && memo.Keys <= Index(list).Keys
    requires Shown(Index(list), list[i].imports, |list[i].imports|, memo, vis, m)
    ensures VisibleSoFar(list, i + 1, out[list[i].name := vis], m)
  {
    hide VisibleUpTo, Index;
  }

  /** The files one file sees, with the memo the earlier files have left. */
  method VisibleTo(files: Files, imports: seq<Import>, memo: Memo) returns (vis: set<string>, memo': Memo)
    requires memo.Keys <= files.Keys
    ensures Shown(files, imports, |imports|, memo, vis, memo') && memo'.Keys <= files.Keys
  {
    hide Answers, Shown;
    vis, memo' := {}, memo;
    ShownStart(files, imports, memo);
    var i := 0;
    while i < |imports|
      invariant 0 <= i <= |imports| && memo'.Keys <= files.Keys
      invariant Shown(files, imports, i, memo, vis, memo')
    {
      ShownMore(files, imports, i, memo, vis, memo');
      if imports[i].path in files {
        var s, m := ReexportedOf(files, imports[i].path, memo');
        vis, memo' := vis + {imports[i].path} + s, m;
      }
      i := i + 1;
    }
  }

  /** Every file of `part` has its answer, and no other. */
  ghost predicate Answered(files: Files, part: Files, out: map<string, set<string>>) {
    && out.Keys == part.Keys
    && forall n :: n in part ==> SeesOnly(files, part[n], out[n]) && SeesTame(files, part[n], out[n])
  }

  lemma AnswerMore(files: Files, list: seq<SourceFile>, i: nat, out: map<string, set<string>>, vis: set<string>)
    requires i < |list| && Answered(files, Index(list[..i]), out)
    requires SeesOnly(files, list[i].imports, vis) && SeesTame(files, list[i].imports, vis)
    ensures Answered(files, Index(list[..i + 1]), out[list[i].name := vis])
  {
    hide SeesOnly, SeesTame;
    assert list[..i + 1][..i] == list[..i];
    var (part, part') := (Index(list[..i]), Index(list[..i + 1]));
    assert part' == part[list[i].name := list[i].imports];
    hide Index;
  }

  lemma AnswerNone(files: Files, list: seq<SourceFile>)
    ensures Answered(files, Index(list[..0]), map[])
  {
  }

  lemma {:induction false} VisibilityGood(list: seq<SourceFile>, i: nat)
    requires i <= |list|
    ensures var (out, memo) := VisibilityUpTo(list, i);
            Good(Index(list), memo, []) && Answered(Index(list), Index(list[..i]), out)
  {
    hide Good, SeesOnly, SeesTame, Answered, VisibleUpTo, Index;
    var files := Index(list);
    if i == 0 {
      GoodStart(files);
      AnswerNone(files, list);
    } else {
      VisibilityGood(list, i - 1);
      var (out, memo) := VisibilityUpTo(list, i - 1);
      var imports := list[i - 1].imports;
      VisibleGood(files, imports, |imports|, memo);
      assert imports[..|imports|] == imports;
      AnswerMore(files, list, i - 1, out, VisibleUpTo(files, imports, |imports|, memo).0);
    }
  }

  lemma VisibilityAnswers(list: seq<SourceFile>)
    ensures Answered(Index(list), Index(list), Visibility(list))
  {
    hide Answered, VisibilityUpTo, Index;
    VisibilityGood(list, |list|);
    assert list[..|list|] == list;
  }

  /**
   * `compute_visibility`: never more than the known imports and what they re-export, whatever the order of
   * the files; and all of it for every import from which no public cycle can be reached.
   */
  method ComputeVisibility(list: seq<SourceFile>) returns (out: map<string, set<string>>)
    ensures out == Visibility(list)
    ensures Answered(Index(list), Index(list), out)
  {
    hide Answered, Index, Shown, VisibleSoFar;
    var files := IndexFiles(list);
    var memo: Memo := map[];
    out := map[];
    SoFarStart(list);
    var i := 0;
    while i < |list|
      invariant 0 <= i <= |list| && memo.Keys <= files.Keys && VisibleSoFar(list, i, out, memo)
    {
      var vis, m := VisibleTo(files, list[i].imports, memo);
      SoFarMore(list, i, out, memo, vis, m);
      out, memo := out[list[i].name := vis], m;
      i := i + 1;
    }
    SoFarEnd(list, out, memo);
    VisibilityAnswers(list);
  }

  lemma SoFarEnd(list: seq<SourceFile>, out: map<string, set<string>>, memo: Memo)
    requires VisibleSoFar(list, |list|, out, memo)
    ensures out == Visibility(list)
  {
  }

  datatype MissingImport = MissingImport(path: string, importer: string)

  /** `m` is an import of `f` that names no file and is not weak. */
  ghost predicate Misses(files: Files, f: SourceFile, m: MissingImport) {
    m.importer == f.name && m.path !in files
    && exists i :: 0 <= i < |f.imports| && f.imports[i].path == m.path && !f.imports[i].kind.Weak?
  }

  ghost predicate SomeMisses(files: Files, list: seq<SourceFile>, m: MissingImport) {
    exists j :: 0 <= j < |list| && Misses(files, list[j], m)
  }

  /** The imports of one file that `compute_visibility` reports: the weak ones may be missing. */
  method ReportMissingOf(files: Files, f: SourceFile) returns (missing: seq<MissingImport>)
    ensures forall m :: m in missing <==> Misses(files, f, m)
  {
    missing := [];
    var i := 0;
    while i < |f.imports|
      invariant 0 <= i <= |f.imports|
      invariant forall m :: m in missing ==> Misses(files, f, m)
      invariant forall k :: 0 <= k < i && f.imports[k].path !in files && !f.imports[k].kind.Weak? ==>
                              MissingImport(f.imports[k].path, f.name) in missing
    {
      var imp := f.imports[i];
      if imp.path !in files && imp.kind != Weak {
        assert Misses(files, f, MissingImport(imp.path, f.name));
        missing := missing + [MissingImport(imp.path, f.name)];
      }
      i := i + 1;
    }
  }

  /** The first loop of `compute_visibility`: exactly the missing imports that are not weak are reported. */
  method ReportMissing(list: seq<SourceFile>) returns (missing: seq<MissingImport>)
    ensures forall m :: m in missing <==> SomeMisses(Index(list), list, m)
  {
    hide Misses, Index;
    var files := IndexFiles(list);
    missing := [];
    var j := 0;
    while j < |list|
      invariant 0 <= j <= |list|
      invariant forall m :: m in missing ==> SomeMisses(files, list, m)
      invariant forall k, m :: 0 <= k < j && Misses(files, list[k], m) ==> m in missing
    {
      var more := ReportMissingOf(files, list[j]);
      missing := missing + more;
      j := j + 1;
    }
  }

  method IndexFiles(list: seq<SourceFile>) returns (files: Files)
    ensures files == Index(list)
  {
    files := map[];
    var i := 0;
    while i < |list|
      invariant 0 <= i <= |list| && files == Index(list[..i])
    {
      files := files[list[i].name := list[i].imports];
      assert list[..i + 1][..i] == list[..i];
      i := i + 1;
    }
    assert list[..|list|] == list;
  }

  /**
   * Without public cycles a file sees exactly its known direct imports and what they publicly reach, so the answer
   * does not depend on the memo, and not on the order of the files.
   */
  lemma VisibilityExact(list: seq<SourceFile>, n: string)
    requires n in Index(list) && !HasCycle(PublicGraph(Index(list)))
    ensures n in Visibility(list)
    ensures var (files, imports) := (Index(list), Index(list)[n]);
            forall b :: b in Visibility(list)[n] <==>
              exists i :: 0 <= i < |imports| && imports[i].path in files && Shows(files, imports[i].path, b)
  {
    hide Index, Visibility;
    VisibilityAnswers(list);
    var (files, imports) := (Index(list), Index(list)[n]);
    forall i | 0 <= i < |imports| && imports[i].path in files
      ensures Tame(PublicGraph(files), imports[i].path)
    {
    }
  }

  /** Three files on a cycle of public imports. */
  predicate Triangle(files: Files, a: string, b: string, c: string) {
    && a != b && b != c && a != c && a in files && b in files && c in files
    && files[a] == [Import(b, Public)] && files[b] == [Import(c, Public)] && files[c] == [Import(a, Public)]
  }

  /** From an empty memo the file asked for gets all three; the memo keeps less for the last one followed. */
  lemma CycleTurn(files: Files, a: string, b: string, c: string)
    requires Triangle(files, a, b, c)
    ensures var (s, m) := Reexported(files, a, map[]); s == {a, b, c} && c in m && m[c] == Some({a})
  {
    hide Reexported, ReexportedBy;
    var ma: Memo := map[a := None];
    var mb := ma[b := None];
    var mc := mb[c := None];
    OnlyPublic(files, a, map[], b);
    OnlyPublic(files, b, ma, c);
    OnlyPublic(files, c, mb, a);
    InProgress(files, a, mc);
    assert {a} + {} == {a} && {c} + {a} == {a, c} && {b} + {a, c} == {a, b, c};
  }

  function Asking(name: string, path: string): SourceFile {
    SourceFile(name, [Import(path, Default)])
  }

  const RING: seq<SourceFile> := [
    SourceFile("a", [Import("b", Public)]), SourceFile("b", [Import("c", Public)]), SourceFile("c", [Import("a", Public)])]

  lemma IndexSnoc(list: seq<SourceFile>, f: SourceFile)
    ensures Index(list + [f]) == Index(list)[f.name := f.imports]
  {
    assert (list + [f])[..|list|] == list;
  }

  lemma IndexRing(x: SourceFile, y: SourceFile)
    ensures Index([x, y] + RING)
            == map[][x.name := x.imports][y.name := y.imports]["a" := RING[0].imports]["b" := RING[1].imports]["c" := RING[2].imports]
  {
    hide Index;
    assert [x, y] + RING == (([x, y] + [RING[0]]) + [RING[1]]) + [RING[2]];
    assert [x, y] == ([] + [x]) + [y];
    assert Index([]) == map[] by { IndexNothing(); }
    IndexSnoc([], x);
    IndexSnoc([] + [x], y);
    IndexSnoc([x, y], RING[0]);
    IndexSnoc([x, y] + [RING[0]], RING[1]);
    IndexSnoc(([x, y] + [RING[0]]) + [RING[1]], RING[2]);
  }

  lemma IndexNothing()
    ensures Index([]) == map[]
  {
  }

  /** Two files that ask for files of the ring, and then the ring. */
  lemma RingIndex(x: SourceFile, y: SourceFile)
    requires x.name !in {"a", "b", "c"} && y.name !in {"a", "b", "c"} && x.name != y.name
    ensures var files := Index([x, y] + RING);
            && Triangle(files, "a", "b", "c")
            && x.name in files && files[x.name] == x.imports && y.name in files && files[y.name] == y.imports
  {
    hide Index;
    IndexRing(x, y);
  }

  /** The answer for a file stays when the files after it have other names. */
  lemma {:induction false} AnswerStays(list: seq<SourceFile>, i: nat, j: nat, name: string)
    requires i <= j <= |list| && forall k :: i <= k < j ==> list[k].name != name
    requires name in VisibilityUpTo(list, i).0
    ensures name in VisibilityUpTo(list, j).0 && VisibilityUpTo(list, j).0[name] == VisibilityUpTo(list, i).0[name]
  {
    hide Index, VisibleUpTo;
    if i < j { AnswerStays(list, i, j - 1, name); }
  }

  /** A file with one known import sees that import and what it re-exports. */
  lemma OneAnswer(list: seq<SourceFile>, i: nat, p: string)
    requires i < |list| && list[i].imports == [Import(p, Default)] && p in Index(list)
    ensures var (out, memo) := VisibilityUpTo(list, i);
            var (s, m) := Reexported(Index(list), p, memo);
            VisibilityUpTo(list, i + 1) == (out[list[i].name := {p} + s], m)
  {
    hide Index, Reexported;
    var (out, memo) := VisibilityUpTo(list, i);
    var (s, m) := Reexported(Index(list), p, memo);
    assert VisibleUpTo(Index(list), list[i].imports, 0, memo) == ({}, memo);
    assert {} + {p} + s == {p} + s;
  }

  /**
   * The known limit: on a public cycle the memo keeps what was found while the cycle was still being followed. The
   * same five files in two orders: `y` imports `c`, and sees `b` only if it comes before `x`, which imports `a`.
   */
  lemma PublicCycleDependsOnOrder()
    ensures var (x, y) := (Asking("x", "a"), Asking("y", "c"));
            var (one, two) := (Visibility([x, y] + RING), Visibility([y, x] + RING));
            "y" in one && one["y"] == {"a", "c"} && "y" in two && two["y"] == {"a", "b", "c"}
  {
    hide Index, Reexported, VisibilityUpTo;
    var (x, y) := (Asking("x", "a"), Asking("y", "c"));
    SecondSees(x, y);
    FirstSees(y, x);
  }

  lemma SecondSees(x: SourceFile, y: SourceFile)
    requires x == Asking("x", "a") && y == Asking("y", "c")
    ensures var one := Visibility([x, y] + RING); "y" in one && one["y"] == {"a", "c"}
  {
    hide Index, Reexported, VisibleUpTo;
    var list := [x, y] + RING;
    RingIndex(x, y);
    CycleTurn(Index(list), "a", "b", "c");
    OneAnswer(list, 0, "a");
    OneAnswer(list, 1, "c");
    KnownAnswer(Index(list), "c", VisibilityUpTo(list, 1).1, {"a"});
    assert VisibilityUpTo(list, 2).0["y"] == {"c"} + {"a"};
    AnswerStays(list, 2, |list|, "y");
  }

  lemma FirstSees(y: SourceFile, x: SourceFile)
    requires x == Asking("x", "a") && y == Asking("y", "c")
    ensures var two := Visibility([y, x] + RING); "y" in two && two["y"] == {"a", "b", "c"}
  {
    hide Index, Reexported, VisibleUpTo;
    var list := [y, x] + RING;
    RingIndex(y, x);
    CycleTurn(Index(list), "c", "a", "b");
    OneAnswer(list, 0, "c");
    assert VisibilityUpTo(list, 1).0["y"] == {"c"} + {"a", "b", "c"};
    AnswerStays(list, 1, |list|, "y");
  }

  lemma KnownAnswer(files: Files, name: string, memo: Memo, s: set<string>)
    requires name in files && memo.Keys <= files.Keys && name in memo && memo[name] == Some(s)
    ensures Reexported(files, name, memo) == (s, memo)
  {
  }

  /** A file whose one import is public takes over what that import re-exports. */
  lemma OnlyPublic(files: Files, name: string, memo: Memo, p: string)
    requires memo.Keys <= files.Keys && name !in memo && p in files && name in files
    requires files[name] == [Import(p, Public)]
    ensures var (s, m) := Reexported(files, p, memo[name := None]);
            Reexported(files, name, memo) == ({p} + s, m[name := Some({p} + s)])
  {
    var marked := memo[name := None];
    C.FewerLeft(files.Keys, memo.Keys, marked.Keys, name);
    OnlyPublicLoop(files, marked, p);
    hide ReexportedBy;
  }

  lemma OnlyPublicLoop(files: Files, memo: Memo, p: string)
    requires memo.Keys <= files.Keys && p in files
    ensures var (s, m) := Reexported(files, p, memo);
            ReexportedBy(files, [Import(p, Public)], {}, memo) == ({p} + s, m)
  {
    hide Reexported;
    var imports := [Import(p, Public)];
    var (s, m) := Reexported(files, p, memo);
    assert imports[1..] == [];
    assert {} + {p} + s == {p} + s;
  }

  lemma InProgress(files: Files, name: string, memo: Memo)
    requires memo.Keys <= files.Keys && name in files && name in memo && memo[name].None?
    ensures Reexported(files, name, memo) == ({}, memo)
  {
  }
}
