/** Import cycle detection (pipeline.rs): a depth-first search with three colours. */
module ImportCycles {
  import opened ImportGraph

  /** 1 and 2 in the original; a name without a colour is unvisited. */
  datatype Color = InProgress | Finished

  /** The invariant of the search, `stack` being the files in progress from the outermost call inwards. */
  ghost predicate Sound(g: Graph, color: map<string, Color>, findings: seq<string>, order: seq<string>,
                        stack: seq<string>)
  {
    && color.Keys <= g.Keys
    && Distinct(stack) && IsPath(g, stack)
    && (forall n :: n in stack <==> n in color && color[n] == InProgress)
    && Distinct(order)
    && (forall n :: n in order <==> n in color && color[n] == Finished)
    && (forall f :: f in findings ==> Reaches(g, f, f))
    && (|findings| == 0 ==> Backward(g, order))
  }

  predicate CanEnter(g: Graph, stack: seq<string>, name: string) {
    name in g && (stack != [] ==> Edge(g, stack[|stack| - 1], name))
  }

  lemma Enter(g: Graph, color: map<string, Color>, findings: seq<string>, order: seq<string>, stack: seq<string>,
              name: string)
    requires Sound(g, color, findings, order, stack) && CanEnter(g, stack, name) && name !in color
    ensures Sound(g, color[name := InProgress], findings, order, stack + [name])
  {
  }

  /** Reaching a file in progress closes a cycle through it. */
  lemma Report(g: Graph, color: map<string, Color>, findings: seq<string>, order: seq<string>, stack: seq<string>,
               name: string)
    requires Sound(g, color, findings, order, stack) && CanEnter(g, stack, name)
    requires name in color && color[name] == InProgress
    ensures Sound(g, color, findings + [name], order, stack)
  {
    var i :| 0 <= i < |stack| && stack[i] == name;
    assert PathFromTo(g, stack[i..] + [name], name, name);
  }

  lemma Finish(g: Graph, color: map<string, Color>, findings: seq<string>, order: seq<string>, stack: seq<string>,
               name: string)
    requires Sound(g, color, findings, order, stack + [name]) && name in g
    requires |findings| == 0 ==> AllIn(g, g[name], order)
    ensures Sound(g, color[name := Finished], findings, order + [name], stack)
  {
    var inner := stack + [name];
    assert inner[|stack|] == name;
    assert forall i :: 0 <= i < |stack| ==> inner[i] == stack[i];
    assert name in inner;
    assert forall n :: n in inner <==> n in stack || n == name;
    assert Distinct(order + [name]);
    assert forall n :: n in order + [name] <==> n in order || n == name;
    if |findings| == 0 { FinishBackward(g, order, name); }
  }

  /** The known files among `names` are all in `order`. */
  predicate AllIn(g: Graph, names: seq<string>, order: seq<string>) {
    forall n :: n in names && n in g ==> n in order
  }

  predicate AllOf(a: seq<string>, b: seq<string>) {
    forall n :: n in a ==> n in b
  }

  lemma AllOfJoin(a: seq<string>, b: seq<string>, c: seq<string>)
    ensures AllOf(a, a)
    ensures AllOf(a, b) && AllOf(b, c) ==> AllOf(a, c)
  {
  }

  lemma AllOfSnoc(a: seq<string>, b: seq<string>, n: string)
    requires AllOf(a, b)
    ensures AllOf(a, b + [n]) && n in b + [n]
  {
  }

  lemma AllInNone(g: Graph, names: seq<string>, order: seq<string>)
    ensures AllIn(g, names[..0], order)
  {
  }

  lemma AllInMore(g: Graph, all: seq<string>, i: nat, order: seq<string>, order': seq<string>)
    requires i < |all| && AllIn(g, all[..i], order) && AllOf(order, order') && (all[i] in g ==> all[i] in order')
    ensures AllIn(g, all[..i + 1], order')
  {
    var names, name := all[..i], all[i];
    assert all[..i + 1] == names + [name];
    assert forall n :: n in names + [name] <==> n in names || n == name;
  }

  lemma FinishBackward(g: Graph, order: seq<string>, name: string)
    requires Backward(g, order) && name in g
    requires AllIn(g, g[name], order)
    ensures Backward(g, order + [name])
  {
    var order' := order + [name];
    forall i, b | 0 <= i < |order'| && Edge(g, order'[i], b)
      ensures b in order'[..i]
    {
      if i < |order| {
        assert order'[..i] == order[..i];
      } else {
        assert order'[..i] == order;
      }
    }
  }

  lemma FinishedInOrder(g: Graph, color: map<string, Color>, findings: seq<string>, order: seq<string>,
                        stack: seq<string>, name: string)
    requires Sound(g, color, findings, order, stack)
    ensures name in order <==> name in color && color[name] == Finished
    ensures color.Keys <= g.Keys
  {
  }

  /** How many files have no colour yet. */
  ghost function Left(g: Graph, color: map<string, Color>): nat {
    |g.Keys - color.Keys|
  }

  predicate Grows(a: map<string, Color>, b: map<string, Color>) {
    a.Keys <= b.Keys
  }

  lemma GrowsJoin(a: map<string, Color>, b: map<string, Color>, c: map<string, Color>)
    ensures Grows(a, a)
    ensures Grows(a, b) && Grows(b, c) ==> Grows(a, c)
  {
  }

  lemma GrowsLeft(g: Graph, a: map<string, Color>, b: map<string, Color>)
    requires Grows(a, b)
    ensures Left(g, b) <= Left(g, a)
  {
    SubsetSize(g.Keys - b.Keys, g.Keys - a.Keys);
  }

  lemma Marking(g: Graph, color: map<string, Color>, name: string, c: Color)
    ensures Grows(color, color[name := c])
    ensures name in g && name !in color ==> Left(g, color[name := c]) < Left(g, color)
  {
    if name in g && name !in color { FewerLeft(g.Keys, color.Keys, color[name := c].Keys, name); }
  }

  class CycleDetector {
    const graph: Graph
    var color: map<string, Color>
    /** The files named by the "import cycle detected" findings, in order. */
    var findings: seq<string>
    /** Files in the order they were finished. */
    ghost var order: seq<string>

    ghost predicate Valid(stack: seq<string>)
      reads this
    {
      Sound(graph, color, findings, order, stack)
    }

    constructor (graph: Graph)
      ensures this.graph == graph && color == map[] && findings == [] && Valid([])
    {
      this.graph := graph;
      color, findings, order := map[], [], [];
    }

    /** `visit_cycle` */
    method Visit(name: string, ghost stack: seq<string>)
      requires Valid(stack) && CanEnter(graph, stack, name)
      modifies this
      ensures Valid(stack)
      ensures |old(findings)| <= |findings| && AllOf(old(order), order)
      ensures Grows(old(color), color)
      ensures |findings| == 0 ==> name in order
      decreases Left(graph, color), 0
    {
      hide Sound, AllIn, AllOf, Left, Grows;
      AllOfJoin(order, order, order);
      GrowsJoin(color, color, color);
      FinishedInOrder(graph, color, findings, order, stack, name);
      if name in color {
        if color[name] == Finished { return; }
        Report(graph, color, findings, order, stack, name);
        findings := findings + [name];
        return;
      }
      Enter(graph, color, findings, order, stack, name);
      Marking(graph, color, name, InProgress);
      color := color[name := InProgress];
      ghost var entered := color;
      VisitImports(graph[name], stack + [name]);
      Finish(graph, color, findings, order, stack, name);
      AllOfSnoc(old(order), order, name);
      Marking(graph, color, name, Finished);
      GrowsJoin(old(color), entered, color);
      GrowsJoin(old(color), color, color[name := Finished]);
      color := color[name := Finished];
      order := order + [name];
    }

    /** The loop of `visit_cycle` over the imports of the file on top of the stack. */
    method VisitImports(imports: seq<string>, ghost stack: seq<string>)
      requires Valid(stack) && stack != [] && stack[|stack| - 1] in graph && imports == graph[stack[|stack| - 1]]
      modifies this
      ensures Valid(stack)
      ensures |old(findings)| <= |findings| && AllOf(old(order), order)
      ensures Grows(old(color), color)
      ensures |findings| == 0 ==> AllIn(graph, imports, order)
      decreases Left(graph, color), 1
    {
      hide Sound, AllIn, AllOf, Left, Grows;
      var i := 0;
      AllInNone(graph, imports, order);
      AllOfJoin(order, order, order);
      GrowsJoin(color, color, color);
      while i < |imports|
        invariant 0 <= i <= |imports| && Valid(stack)
        invariant |old(findings)| <= |findings| && AllOf(old(order), order)
        invariant Grows(old(color), color)
        invariant |findings| == 0 ==> AllIn(graph, imports[..i], order)
      {
        ghost var (before, colors) := (order, color);
        AllOfJoin(order, order, order);
        GrowsJoin(color, color, color);
        if imports[i] in graph {
          GrowsLeft(graph, old(color), color);
          Visit(imports[i], stack);
        }
        GrowsJoin(old(color), colors, color);
        if |findings| == 0 { AllInMore(graph, imports, i, before, order); }
        AllOfJoin(old(order), before, order);
        i := i + 1;
      }
      assert imports[..|imports|] == imports;
    }

    /** `detect_import_cycles`: something is reported if and only if the imports between known files form a cycle. */
    method Detect(files: seq<string>)
      requires Valid([]) && color == map[] && findings == []
      requires forall n :: n in files <==> n in graph
      modifies this
      ensures findings != [] <==> HasCycle(graph)
      ensures forall f :: f in findings ==> Reaches(graph, f, f)
    {
      var i := 0;
      while i < |files|
        invariant 0 <= i <= |files| && Valid([])
        invariant |findings| == 0 ==> AllIn(graph, files[..i], order)
      {
        ghost var before := order;
        Visit(files[i], []);
        if |findings| == 0 { AllInMore(graph, files, i, before, order); }
        i := i + 1;
      }
      if |findings| == 0 {
        assert files[..|files|] == files;
        BackwardAcyclic(graph, order);
      } else {
        assert findings[0] in findings;
      }
    }
  }

  lemma SubsetSize(a: set<string>, b: set<string>)
    requires a <= b
    ensures |a| <= |b|
  {
    if a != {} {
      var x :| x in a;
      SubsetSize(a - {x}, b - {x});
    }
  }

  /** Marking an unmarked name leaves strictly fewer unmarked ones. */
  lemma FewerLeft(all: set<string>, before: set<string>, after: set<string>, name: string)
    requires name in all && name !in before && after == before + {name}
    ensures |all - after| < |all - before|
  {
    SubsetSize(all - after, (all - before) - {name});
  }
}
