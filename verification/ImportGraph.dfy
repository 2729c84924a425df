/** Directed graphs of files and their imports, by name. */
module ImportGraph {

  /** A file's import paths, in order. Paths that name no file of the graph are not edges. */
  type Graph = map<string, seq<string>>

  predicate Edge(g: Graph, a: string, b: string) {
    a in g && b in g[a] && b in g
  }

  predicate IsPath(g: Graph, p: seq<string>) {
    forall i :: 0 <= i < |p| - 1 ==> Edge(g, p[i], p[i + 1])
  }

  ghost predicate PathFromTo(g: Graph, p: seq<string>, a: string, b: string) {
    |p| >= 2 && IsPath(g, p) && p[0] == a && p[|p| - 1] == b
  }

  /** `b` can be reached from `a` in one or more steps. */
  ghost predicate Reaches(g: Graph, a: string, b: string) {
    exists p :: PathFromTo(g, p, a, b)
  }

  ghost predicate HasCycle(g: Graph) {
    exists n :: Reaches(g, n, n)
  }

  predicate Distinct(s: seq<string>) {
    forall i, j :: 0 <= i < j < |s| ==> s[i] != s[j]
  }

  lemma ReachesEdge(g: Graph, a: string, b: string)
    requires Edge(g, a, b)
    ensures Reaches(g, a, b)
  {
    assert PathFromTo(g, [a, b], a, b);
  }

  lemma ReachesJoin(g: Graph, a: string, b: string, c: string)
    requires Reaches(g, a, b) && Reaches(g, b, c)
    ensures Reaches(g, a, c)
  {
    var p :| PathFromTo(g, p, a, b);
    var q :| PathFromTo(g, q, b, c);
    assert PathFromTo(g, p + q[1..], a, c);
  }

  /** One step, and then nothing or more steps. */
  lemma ReachesFirst(g: Graph, a: string, c: string) returns (b: string)
    requires Reaches(g, a, c)
    ensures Edge(g, a, b) && (b == c || Reaches(g, b, c))
  {
    var p :| PathFromTo(g, p, a, c);
    assert Edge(g, p[0], p[1]);
    b := p[1];
    if |p| > 2 { assert PathFromTo(g, p[1..], b, c); }
  }

  /** Every earlier node of a path reaches every later one. */
  lemma PathReaches(g: Graph, p: seq<string>, i: nat, j: nat)
    requires IsPath(g, p) && i < j < |p|
    ensures Reaches(g, p[i], p[j])
  {
    assert PathFromTo(g, p[i..j + 1], p[i], p[j]);
  }

  /** A list in which every edge points strictly backwards. */
  ghost predicate Backward(g: Graph, order: seq<string>) {
    forall i, b :: 0 <= i < |order| && Edge(g, order[i], b) ==> b in order[..i]
  }

  /** Along a path every step moves to an earlier place in such a list. */
  lemma {:induction false} PathDescends(g: Graph, order: seq<string>, p: seq<string>, i: nat) returns (j: nat)
    requires Backward(g, order) && |p| >= 2 && IsPath(g, p) && i < |order| && order[i] == p[0]
    ensures j < i && order[j] == p[|p| - 1]
    decreases |p|
  {
    assert Edge(g, p[0], p[1]);
    assert p[1] in order[..i];
    j :| 0 <= j < i && order[j] == p[1];
    if |p| > 2 { j := PathDescends(g, order, p[1..], j); }
  }

  /** A backward list of distinct nodes that holds every file rules out cycles. */
  lemma BackwardAcyclic(g: Graph, order: seq<string>)
    requires Backward(g, order) && Distinct(order) && forall n :: n in g ==> n in order
    ensures !HasCycle(g)
  {
    if HasCycle(g) {
      var n :| Reaches(g, n, n);
      var p :| PathFromTo(g, p, n, n);
      assert Edge(g, p[0], p[1]);
      var i :| 0 <= i < |order| && order[i] == n;
      var j := PathDescends(g, order, p, i);
      assert false;
    }
  }
}
