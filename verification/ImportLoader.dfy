/** Loading a file and everything it imports (compiler/lib.rs): dependencies first, each file once. */
module ImportLoader {
  import opened ImportGraph
  import C = ImportCycles

  datatype Outcome = Loaded | NotFound(path: string)

  /** `n` is `root` or is imported by it, however indirectly. */
  ghost predicate Behind(g: Graph, root: string, n: string) {
    n == root || Reaches(g, root, n)
  }

  predicate ImportsKnown(g: Graph, n: string) {
    n in g && forall p :: p in g[n] ==> p in g
  }

  /** Each file comes after its imports, except an import that leads back to it. */
  ghost predicate DependenciesFirst(g: Graph, out: seq<string>) {
    forall i, d {:trigger Edge(g, out[i], d)} :: 0 <= i < |out| && Edge(g, out[i], d) ==>
      d in out && (d in out[..i] || Behind(g, d, out[i]))
  }

  /** The same while the files of `stack` are still being loaded. */
  ghost predicate Pending(g: Graph, out: seq<string>, stack: seq<string>) {
    forall i, d {:trigger Edge(g, out[i], d)} :: 0 <= i < |out| && Edge(g, out[i], d) ==>
      d in out[..i] || ((d in out || d in stack) && Behind(g, d, out[i]))
  }

  ghost predicate Sound(g: Graph, root: string, seen: set<string>, out: seq<string>, stack: seq<string>) {
    && seen <= g.Keys
    && Distinct(stack) && IsPath(g, stack) && (stack != [] ==> stack[0] == root)
    && Distinct(out)
    && (forall n :: n in seen <==> n in out || n in stack)
    && (forall n :: n in out ==> n !in stack && ImportsKnown(g, n) && Behind(g, root, n))
    && Pending(g, out, stack)
  }

  predicate CanEnter(g: Graph, root: string, stack: seq<string>, name: string) {
    if stack == [] then name == root else Edge(g, stack[|stack| - 1], name)
  }

  lemma Enter(g: Graph, root: string, seen: set<string>, out: seq<string>, stack: seq<string>, name: string)
    requires Sound(g, root, seen, out, stack) && CanEnter(g, root, stack, name) && name !in seen && name in g
    ensures Sound(g, root, seen + {name}, out, stack + [name])
  {
  }

  /** The import `d` of the file on top of the stack has been dealt with. */
  ghost predicate Settled(g: Graph, name: string, d: string, out: seq<string>, stack: seq<string>) {
    d in out || (d in stack && Behind(g, d, name))
  }

  ghost predicate AllSettled(g: Graph, name: string, imports: seq<string>, out: seq<string>, stack: seq<string>) {
    forall d :: d in imports ==> d in g && Settled(g, name, d, out, stack)
  }

  /** An import found already seen is loaded, or is in progress and leads to the file on top. */
  lemma SeenIsSettled(g: Graph, root: string, seen: set<string>, out: seq<string>, stack: seq<string>, d: string)
    requires Sound(g, root, seen, out, stack) && stack != [] && d in seen
    ensures Settled(g, stack[|stack| - 1], d, out, stack)
  {
    if d !in out {
      var i :| 0 <= i < |stack| && stack[i] == d;
      if i < |stack| - 1 { PathReaches(g, stack, i, |stack| - 1); }
    }
  }

  lemma TopIsBehind(g: Graph, root: string, stack: seq<string>)
    requires IsPath(g, stack) && stack != [] && stack[0] == root
    ensures Behind(g, root, stack[|stack| - 1])
  {
    if |stack| > 1 { PathReaches(g, stack, 0, |stack| - 1); }
  }

  lemma Finish(g: Graph, root: string, seen: set<string>, out: seq<string>, stack: seq<string>, name: string)
    requires Sound(g, root, seen, out, stack + [name]) && name in g
    requires AllSettled(g, name, g[name], out, stack + [name])
    ensures Sound(g, root, seen, out + [name], stack)
  {
    var inner := stack + [name];
    assert inner[|stack|] == name;
    assert forall i :: 0 <= i < |stack| ==> inner[i] == stack[i];
    assert forall n :: n in inner <==> n in stack || n == name;
    assert name in inner;
    TopIsBehind(g, root, inner);
    assert forall n :: n in out + [name] <==> n in out || n == name;
    FinishPending(g, out, stack, name);
  }

  lemma FinishPending(g: Graph, out: seq<string>, stack: seq<string>, name: string)
    requires Pending(g, out, stack + [name]) && name in g && AllSettled(g, name, g[name], out, stack + [name])
    ensures Pending(g, out + [name], stack)
  {
    var out' := out + [name];
    assert forall n :: n in out' <==> n in out || n == name;
    assert forall n :: n in stack + [name] <==> n in stack || n == name;
    forall i, d | 0 <= i < |out'| && Edge(g, out'[i], d)
      ensures d in out'[..i] || ((d in out' || d in stack) && Behind(g, d, out'[i]))
    {
      if i < |out| {
        assert out'[..i] == out[..i];
      } else {
        assert out'[..i] == out;
        assert Settled(g, name, d, out, stack + [name]);
      }
    }
  }

  lemma SettledMore(g: Graph, name: string, all: seq<string>, i: nat, out: seq<string>, out': seq<string>,
                    stack: seq<string>)
    requires i < |all| && AllSettled(g, name, all[..i], out, stack) && C.AllOf(out, out')
    requires all[i] in g && Settled(g, name, all[i], out', stack)
    ensures AllSettled(g, name, all[..i + 1], out', stack)
  {
    assert all[..i + 1] == all[..i] + [all[i]];
  }

  lemma SettledNone(g: Graph, name: string, all: seq<string>, out: seq<string>, stack: seq<string>)
    ensures AllSettled(g, name, all[..0], out, stack)
  {
  }

  lemma SoundSeen(g: Graph, root: string, seen: set<string>, out: seq<string>, stack: seq<string>, name: string)
    requires Sound(g, root, seen, out, stack)
    ensures seen <= g.Keys && (stack != [] ==> Behind(g, root, stack[|stack| - 1]))
  {
    if stack != [] { TopIsBehind(g, root, stack); }
  }

  /** The path names no file, and is the root itself or imported by a file behind the root. */
  ghost predicate Missing(g: Graph, root: string, path: string) {
    path !in g && (path == root || exists n :: Behind(g, root, n) && n in g && path in g[n])
  }

  lemma MissingBy(g: Graph, root: string, n: string, path: string)
    requires Behind(g, root, n) && n in g && path in g[n] && path !in g
    ensures Missing(g, root, path)
  {
  }

  /** Some file behind the root imports a path that names no file. */
  ghost predicate Broken(g: Graph, root: string) {
    exists n :: Behind(g, root, n) && !ImportsKnown(g, n)
  }

  lemma BrokenBy(g: Graph, root: string, n: string, p: string)
    requires Behind(g, root, n) && n in g && p in g[n] && p !in g
    ensures Broken(g, root)
  {
  }

  /** A finished load holds exactly the files behind the root. */
  lemma LoadedExactly(g: Graph, root: string, seen: set<string>, out: seq<string>)
    requires Sound(g, root, seen, out, []) && root in out
    ensures forall n :: n in out <==> Behind(g, root, n)
    ensures !Broken(g, root) && DependenciesFirst(g, out)
  {
    forall n | Behind(g, root, n)
      ensures n in out
    {
      if n != root {
        var p :| PathFromTo(g, p, root, n);
        PathStays(g, out, p);
      }
    }
  }

  lemma {:induction false} PathStays(g: Graph, out: seq<string>, p: seq<string>)
    requires Pending(g, out, []) && |p| >= 1 && IsPath(g, p) && p[0] in out
    ensures p[|p| - 1] in out
  {
    if |p| > 1 {
      assert Edge(g, p[0], p[1]);
      var i :| 0 <= i < |out| && out[i] == p[0];
      assert p[1] in out;
      PathStays(g, out, p[1..]);
    }
  }

  /** With no import cycle the order is a dependency order outright. */
  lemma LoadedInOrder(g: Graph, out: seq<string>)
    requires DependenciesFirst(g, out) && !HasCycle(g)
    ensures Backward(g, out)
  {
    forall i, d | 0 <= i < |out| && Edge(g, out[i], d)
      ensures d in out[..i]
    {
      ReachesEdge(g, out[i], d);
      if d !in out[..i] {
        assert Behind(g, d, out[i]);
        if d != out[i] { ReachesJoin(g, d, out[i], d); }
      }
    }
  }

  /** Conversely a cycle among loaded files always leaves some import out of order. */
  lemma CycleBreaksOrder(g: Graph, out: seq<string>, n: string)
    requires n in out && Distinct(out) && Reaches(g, n, n)
    ensures !Backward(g, out)
  {
    if Backward(g, out) {
      var p :| PathFromTo(g, p, n, n);
      var i :| 0 <= i < |out| && out[i] == n;
      var j := PathDescends(g, out, p, i);
      assert false;
    }
  }

  class Loader {
    /** The files that can be found, by name, with the paths they import. */
    const files: Graph
    var seen: set<string>
    var out: seq<string>

    ghost predicate Valid(root: string, stack: seq<string>)
      reads this
    {
      Sound(files, root, seen, out, stack)
    }

    constructor (files: Graph)
      ensures this.files == files && seen == {} && out == []
    {
      this.files := files;
      seen, out := {}, [];
    }

    /** The inner `visit`. */
    method Visit(name: string, ghost root: string, ghost stack: seq<string>) returns (r: Outcome)
      requires Valid(root, stack) && CanEnter(files, root, stack, name)
      modifies this
      ensures old(seen) <= seen && C.AllOf(old(out), out)
      ensures r.Loaded? ==> Valid(root, stack) && name in seen
      ensures r.Loaded? && name !in old(seen) ==> out != [] && out[|out| - 1] == name
      ensures r.NotFound? ==> Missing(files, root, r.path) && (root !in files || Broken(files, root))
      decreases |files.Keys - seen|, 0
    {
      hide Sound, Broken, C.AllOf;
      C.AllOfJoin(out, out, out);
      SoundSeen(files, root, seen, out, stack, name);
      if name in seen { return Loaded; }
      if name in files {
        Enter(files, root, seen, out, stack, name);
        C.FewerLeft(files.Keys, seen, seen + {name}, name);
      }
      seen := seen + {name};
      if name !in files { return NotFound(name); }
      r := VisitImports(files[name], root, stack + [name]);
      if r.NotFound? { return; }
      Finish(files, root, seen, out, stack, name);
      C.AllOfSnoc(old(out), out, name);
      out := out + [name];
    }

    method VisitImports(imports: seq<string>, ghost root: string, ghost stack: seq<string>)
      returns (r: Outcome)
      requires Valid(root, stack) && stack != [] && stack[|stack| - 1] in files
      requires imports == files[stack[|stack| - 1]]
      modifies this
      ensures old(seen) <= seen && C.AllOf(old(out), out)
      ensures r.Loaded? ==> Valid(root, stack) && AllSettled(files, stack[|stack| - 1], imports, out, stack)
      ensures r.NotFound? ==> Missing(files, root, r.path) && (root !in files || Broken(files, root))
      decreases |files.Keys - seen|, 1
    {
      hide Sound, Broken, Missing, C.AllOf, AllSettled, Settled;
      ghost var top := stack[|stack| - 1];
      var i := 0;
      SettledNone(files, top, imports, out, stack);
      C.AllOfJoin(out, out, out);
      while i < |imports|
        invariant 0 <= i <= |imports| && Valid(root, stack)
        invariant old(seen) <= seen && C.AllOf(old(out), out)
        invariant AllSettled(files, top, imports[..i], out, stack)
      {
        SoundSeen(files, root, seen, out, stack, top);
        if imports[i] !in files {
          BrokenBy(files, root, top, imports[i]);
          MissingBy(files, root, top, imports[i]);
          return NotFound(imports[i]);
        }
        ghost var before := out;
        C.SubsetSize(files.Keys - seen, files.Keys - old(seen));
        r := Visit(imports[i], root, stack);
        C.AllOfJoin(old(out), before, out);
        if r.NotFound? { return; }
        SeenIsSettled(files, root, seen, out, stack, imports[i]);
        SettledMore(files, top, imports, i, before, out, stack);
        i := i + 1;
      }
      assert imports[..|imports|] == imports;
      r := Loaded;
    }

    /**
     * `resolve_and_parse`: succeeds exactly when the entry and everything behind it can be found, and then
     * returns exactly those files, each once, the entry last, imports first up to cycles.
     */
    method ResolveAndParse(entry: string) returns (r: Outcome)
      requires seen == {} && out == []
      modifies this
      ensures r.Loaded? <==> entry in files && !Broken(files, entry)
      ensures r.NotFound? ==> Missing(files, entry, r.path)
      ensures r.Loaded? ==>
        && (forall n :: n in out <==> Behind(files, entry, n))
        && Distinct(out) && out != [] && out[|out| - 1] == entry
        && DependenciesFirst(files, out)
    {
      hide Broken, Missing;
      r := Visit(entry, entry, []);
      if r.Loaded? {
        assert out[|out| - 1] in out;
        LoadedExactly(files, entry, seen, out);
      }
    }
  }
}
