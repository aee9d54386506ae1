/** Directed graphs given by successor lists, reachability and acyclicity. */
module Graphs {

  type Graph<T(==)> = map<T, seq<T>>

  /** Every successor is a vertex. */
  ghost predicate Closed<T>(g: Graph<T>) {
    forall a, b :: a in g && b in g[a] ==> b in g
  }

  ghost predicate ReachesIn<T>(g: Graph<T>, a: T, b: T, n: nat) {
    if n == 0 then a == b
    else a in g && exists x :: x in g[a] && ReachesIn(g, x, b, n - 1)
  }

  /** Zero or more edges lead from `a` to `b`. */
  ghost predicate Reaches<T>(g: Graph<T>, a: T, b: T) {
    exists n: nat :: ReachesIn(g, a, b, n)
  }

  ghost predicate Acyclic<T>(g: Graph<T>) {
    forall a, x :: a in g && x in g[a] ==> !Reaches(g, x, a)
  }

  lemma ReachesSelf<T>(g: Graph<T>, a: T)
    ensures Reaches(g, a, a)
  {
    assert ReachesIn(g, a, a, 0);
  }

  /** Reachability, unfolded at its first edge. */
  lemma ReachesUnfold<T>(g: Graph<T>, a: T, b: T)
    ensures Reaches(g, a, b) <==> a == b || (a in g && exists x :: x in g[a] && Reaches(g, x, b))
  {
    if Reaches(g, a, b) && a != b {
      var n: nat :| ReachesIn(g, a, b, n);
      var x :| x in g[a] && ReachesIn(g, x, b, n - 1);
      assert Reaches(g, x, b);
    }
    if a == b {
      ReachesSelf(g, a);
    }
    if a in g && exists x :: x in g[a] && Reaches(g, x, b) {
      var x :| x in g[a] && Reaches(g, x, b);
      var n: nat :| ReachesIn(g, x, b, n);
      assert ReachesIn(g, a, b, n + 1);
    }
  }

  lemma {:induction false} ReachesInTransitive<T>(g: Graph<T>, a: T, b: T, c: T, n: nat)
    requires ReachesIn(g, a, b, n) && Reaches(g, b, c)
    ensures Reaches(g, a, c)
  {
    if n > 0 {
      var x :| x in g[a] && ReachesIn(g, x, b, n - 1);
      ReachesInTransitive(g, x, b, c, n - 1);
      ReachesUnfold(g, a, c);
    }
  }

  lemma ReachesTransitive<T>(g: Graph<T>, a: T, b: T, c: T)
    requires Reaches(g, a, b) && Reaches(g, b, c)
    ensures Reaches(g, a, c)
  {
    var n: nat :| ReachesIn(g, a, b, n);
    ReachesInTransitive(g, a, b, c, n);
  }

  function AddEdge<T>(g: Graph<T>, a: T, b: T): (r: Graph<T>)
    requires a in g
  {
    g[a := g[a] + [b]]
  }

  /** What is reachable once an edge is added that closes no cycle. */
  lemma {:induction false} AddEdgeReaches<T>(g: Graph<T>, d1: T, d2: T, a: T, b: T, n: nat)
    requires d1 in g && !Reaches(g, d2, d1)
    requires ReachesIn(AddEdge(g, d1, d2), a, b, n)
    ensures Reaches(g, a, b) || (Reaches(g, a, d1) && Reaches(g, d2, b))
  {
    if n == 0 {
      ReachesSelf(g, a);
    } else {
      var x :| x in AddEdge(g, d1, d2)[a] && ReachesIn(AddEdge(g, d1, d2), x, b, n - 1);
      AddEdgeReaches(g, d1, d2, x, b, n - 1);
      ReachesSelf(g, d1);
      ReachesUnfold(g, a, b);
      ReachesUnfold(g, a, d1);
    }
  }

  lemma AddEdgeAcyclic<T>(g: Graph<T>, d1: T, d2: T)
    requires d1 in g && Acyclic(g) && !Reaches(g, d2, d1)
    ensures Acyclic(AddEdge(g, d1, d2))
  {
    var g' := AddEdge(g, d1, d2);
    forall a, x | a in g' && x in g'[a] ensures !Reaches(g', x, a) {
      if Reaches(g', x, a) {
        var n: nat :| ReachesIn(g', x, a, n);
        AddEdgeReaches(g, d1, d2, x, a, n);
        if x in g[a] {
          ReachesUnfold(g, a, d1);
          ReachesTransitive(g, d2, a, d1);
        }
      }
    }
  }

  lemma {:induction false} AddVertexReaches<T>(g: Graph<T>, v: T, a: T, b: T, n: nat)
    requires Closed(g) && v !in g && ReachesIn(g[v := []], a, b, n)
    ensures Reaches(g, a, b)
  {
    if n == 0 {
      ReachesSelf(g, a);
    } else {
      var x :| x in g[v := []][a] && ReachesIn(g[v := []], x, b, n - 1);
      AddVertexReaches(g, v, x, b, n - 1);
      ReachesUnfold(g, a, b);
    }
  }

  /** A new vertex without edges keeps the graph acyclic. */
  lemma AddVertexAcyclic<T>(g: Graph<T>, v: T)
    requires Closed(g) && Acyclic(g) && v !in g
    ensures Closed(g[v := []]) && Acyclic(g[v := []])
  {
    var g' := g[v := []];
    forall a, x | a in g' && x in g'[a] ensures !Reaches(g', x, a) {
      if Reaches(g', x, a) {
        var n: nat :| ReachesIn(g', x, a, n);
        AddVertexReaches(g, v, x, a, n);
      }
    }
  }

  /** `h` has every edge of `g`. */
  ghost predicate Extends<T>(h: Graph<T>, g: Graph<T>) {
    forall a, b :: a in g && b in g[a] ==> a in h && b in h[a]
  }

  lemma {:induction false} ExtendsReaches<T>(h: Graph<T>, g: Graph<T>, a: T, b: T, n: nat)
    requires Extends(h, g) && ReachesIn(g, a, b, n)
    ensures Reaches(h, a, b)
  {
    if n == 0 {
      ReachesSelf(h, a);
    } else {
      var x :| x in g[a] && ReachesIn(g, x, b, n - 1);
      ExtendsReaches(h, g, x, b, n - 1);
      ReachesUnfold(h, a, b);
    }
  }
}
