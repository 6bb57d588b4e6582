/** Reachability by finite paths in a graph given by its successor function. */
module Graph {

  ghost predicate IsPath<T>(edges: T -> set<T>, path: seq<T>) {
    forall i :: 0 <= i < |path| - 1 ==> path[i + 1] in edges(path[i])
  }

  /** A path leads from one of the start nodes to `n`. */
  ghost predicate Reaches<T(!new)>(edges: T -> set<T>, start: set<T>, n: T) {
    exists path :: PathTo(edges, start, path, n)
  }

  ghost predicate PathTo<T>(edges: T -> set<T>, start: set<T>, path: seq<T>, n: T) {
    |path| > 0 && path[0] in start && path[|path| - 1] == n && IsPath(edges, path)
  }

  lemma ReachesStart<T(!new)>(edges: T -> set<T>, start: set<T>, n: T)
    requires n in start
    ensures Reaches(edges, start, n)
  {
    assert PathTo(edges, start, [n], n);
  }

  lemma ReachesMore<T(!new)>(edges: T -> set<T>, start: set<T>, more: set<T>, n: T)
    requires start <= more && Reaches(edges, start, n)
    ensures Reaches(edges, more, n)
  {
    var path :| PathTo(edges, start, path, n);
    assert PathTo(edges, more, path, n);
  }

  /** What a node's successors reach, the node reaches. */
  lemma ReachesThrough<T(!new)>(edges: T -> set<T>, m: T, n: T)
    requires Reaches(edges, edges(m), n)
    ensures Reaches(edges, {m}, n)
  {
    var path :| PathTo(edges, edges(m), path, n);
    var longer := [m] + path;
    forall i | 0 <= i < |longer| - 1 ensures longer[i + 1] in edges(longer[i]) {
      if i > 0 { assert longer[i] == path[i - 1] && longer[i + 1] == path[i]; }
    }
    assert PathTo(edges, {m}, longer, n);
  }

  lemma ReachesNext<T(!new)>(edges: T -> set<T>, start: set<T>, m: T, n: T)
    requires Reaches(edges, start, m) && n in edges(m)
    ensures Reaches(edges, start, n)
  {
    var path :| PathTo(edges, start, path, m);
    var longer := path + [n];
    forall i | 0 <= i < |longer| - 1 ensures longer[i + 1] in edges(longer[i]) {
      if i < |path| - 1 { assert longer[i] == path[i] && longer[i + 1] == path[i + 1]; }
    }
    assert PathTo(edges, start, longer, n);
  }

  ghost predicate Closed<T>(edges: T -> set<T>, nodes: set<T>) {
    forall m :: m in nodes ==> edges(m) <= nodes
  }

  lemma {:induction false} PathStays<T>(edges: T -> set<T>, nodes: set<T>, path: seq<T>)
    requires Closed(edges, nodes) && |path| > 0 && path[0] in nodes && IsPath(edges, path)
    ensures path[|path| - 1] in nodes
  {
    if |path| > 1 {
      var init := path[..|path| - 1];
      forall i | 0 <= i < |init| - 1 ensures init[i + 1] in edges(init[i]) { assert path[i + 1] in edges(path[i]); }
      PathStays(edges, nodes, init);
      var k := |path| - 2;
      assert path[k + 1] in edges(path[k]) && path[k] == init[|init| - 1];
    }
  }

  /** A closed set that contains the start contains everything reachable. */
  lemma ClosedContains<T(!new)>(edges: T -> set<T>, start: set<T>, nodes: set<T>, n: T)
    requires start <= nodes && Closed(edges, nodes) && Reaches(edges, start, n)
    ensures n in nodes
  {
    var path :| PathTo(edges, start, path, n);
    PathStays(edges, nodes, path);
  }

  /** A closed set of reachable nodes that contains the start is exactly what is reachable. */
  lemma ClosedIsReachable<T(!new)>(edges: T -> set<T>, start: set<T>, nodes: set<T>)
    requires start <= nodes && Closed(edges, nodes) && forall n :: n in nodes ==> Reaches(edges, start, n)
    ensures forall n :: n in nodes <==> Reaches(edges, start, n)
  {
    forall n | Reaches(edges, start, n) ensures n in nodes { ClosedContains(edges, start, nodes, n); }
  }
}
