/** Directed multigraphs as sequences of edges, and reachability by non-empty walks. */
module Reachability {

  import opened Sequences

  type Vertex = nat

  datatype Edge = Edge(source: Vertex, target: Vertex)

  /** The edge relation of an edge list: parallel edges collapse. */
  function Support(edges: seq<Edge>): set<Edge> {
    set e | e in edges
  }

  /** There is a walk of exactly n edges from u to v. */
  ghost predicate Walk(es: set<Edge>, n: nat, u: Vertex, v: Vertex) {
    if n == 0 then false
    else if n == 1 then Edge(u, v) in es
    else exists w :: Edge(u, w) in es && Walk(es, n - 1, w, v)
  }

  /** u reaches v by at least one edge. */
  ghost predicate Reaches(es: set<Edge>, u: Vertex, v: Vertex) {
    exists n: nat :: Walk(es, n, u, v)
  }

  ghost predicate Acyclic(es: set<Edge>) {
    forall v :: !Reaches(es, v, v)
  }

  /** Every edge of es joins two members of vs. */
  ghost predicate Within(es: set<Edge>, vs: set<Vertex>) {
    forall e :: e in es ==> e.source in vs && e.target in vs
  }

  /** Two edge relations agree on reachability among some vertices, a vertex to itself included. */
  ghost predicate SameReach(vs: seq<Vertex>, es: set<Edge>, fs: set<Edge>) {
    forall u, w :: u in vs && w in vs ==> (Reaches(es, u, w) <==> Reaches(fs, u, w))
  }

  lemma StepReaches(es: set<Edge>, u: Vertex, v: Vertex)
    requires Edge(u, v) in es
    ensures Reaches(es, u, v)
  {
    assert Walk(es, 1, u, v);
  }

  lemma {:induction false} WalkConcat(es: set<Edge>, m: nat, n: nat, u: Vertex, w: Vertex, v: Vertex)
    requires Walk(es, m, u, w) && Walk(es, n, w, v)
    ensures Walk(es, m + n, u, v)
    decreases m
  {
    if m > 1 {
      var x :| Edge(u, x) in es && Walk(es, m - 1, x, w);
      WalkConcat(es, m - 1, n, x, w, v);
    }
  }

  lemma ReachesTrans(es: set<Edge>, u: Vertex, w: Vertex, v: Vertex)
    requires Reaches(es, u, w) && Reaches(es, w, v)
    ensures Reaches(es, u, v)
  {
    var m: nat :| Walk(es, m, u, w);
    var n: nat :| Walk(es, n, w, v);
    WalkConcat(es, m, n, u, w, v);
  }

  lemma {:induction false} WalkMono(es: set<Edge>, fs: set<Edge>, n: nat, u: Vertex, v: Vertex)
    requires es <= fs && Walk(es, n, u, v)
    ensures Walk(fs, n, u, v)
    decreases n
  {
    if n > 1 {
      var w :| Edge(u, w) in es && Walk(es, n - 1, w, v);
      WalkMono(es, fs, n - 1, w, v);
    }
  }

  lemma ReachesMono(es: set<Edge>, fs: set<Edge>, u: Vertex, v: Vertex)
    requires es <= fs && Reaches(es, u, v)
    ensures Reaches(fs, u, v)
  {
    var n: nat :| Walk(es, n, u, v);
    WalkMono(es, fs, n, u, v);
  }

  /** The first edge of a walk. */
  lemma ReachesFirst(es: set<Edge>, u: Vertex, v: Vertex) returns (w: Vertex)
    requires Reaches(es, u, v)
    ensures Edge(u, w) in es && (w == v || Reaches(es, w, v))
  {
    var n: nat :| Walk(es, n, u, v);
    if n == 1 {
      w := v;
    } else {
      w :| Edge(u, w) in es && Walk(es, n - 1, w, v);
    }
  }

  /** A walk stays among the vertices its edges join. */
  lemma {:induction false} WalkEnds(es: set<Edge>, vs: set<Vertex>, n: nat, u: Vertex, v: Vertex)
    requires Within(es, vs) && Walk(es, n, u, v)
    ensures u in vs && v in vs
    decreases n
  {
    if n == 1 {
      assert Edge(u, v) in es;
    } else {
      var w :| Edge(u, w) in es && Walk(es, n - 1, w, v);
      WalkEnds(es, vs, n - 1, w, v);
    }
  }

  /** Whatever holds of every edge and composes holds of every walk: the position in an order, say. */
  lemma {:induction false} WalkRespects(es: set<Edge>, rank: map<Vertex, int>, n: nat, u: Vertex, v: Vertex)
    requires forall e :: e in es ==> e.source in rank && e.target in rank && rank[e.source] < rank[e.target]
    requires Walk(es, n, u, v)
    ensures u in rank && v in rank && rank[u] < rank[v]
    decreases n
  {
    if n == 1 {
      assert Edge(u, v) in es;
    } else {
      var w :| Edge(u, w) in es && Walk(es, n - 1, w, v);
      assert Edge(u, w) in es;
      WalkRespects(es, rank, n - 1, w, v);
    }
  }

  ghost predicate HasPredecessor(es: set<Edge>, vs: set<Vertex>, v: Vertex) {
    exists u :: u in vs && Edge(u, v) in es
  }

  /** The members of vs that reach x. */
  ghost function Behind(es: set<Edge>, vs: set<Vertex>, x: Vertex): set<Vertex> {
    set y | y in vs && Reaches(es, y, x)
  }

  lemma BehindHasPredecessors(es: set<Edge>, vs: set<Vertex>, x: Vertex, y: Vertex)
    requires y in Behind(es, vs, x) && HasPredecessor(es, vs, y)
    ensures HasPredecessor(es, Behind(es, vs, x), y)
  {
    var z :| z in vs && Edge(z, y) in es;
    StepReaches(es, z, y);
    ReachesTrans(es, z, y, x);
    assert z in Behind(es, vs, x);
  }

  /** A non-empty finite set in which everyone has a predecessor in the set contains a cycle. */
  lemma {:induction false} PredecessorsMakeCycle(es: set<Edge>, vs: set<Vertex>) returns (c: Vertex)
    requires vs != {}
    requires forall v :: v in vs ==> HasPredecessor(es, vs, v)
    ensures c in vs && Reaches(es, c, c)
    decreases |vs|
  {
    var x :| x in vs;
    if Reaches(es, x, x) {
      c := x;
    } else {
      var behind := Behind(es, vs, x);
      SubsetSmaller(behind, vs);
      assert HasPredecessor(es, vs, x);
      var p :| p in vs && Edge(p, x) in es;
      StepReaches(es, p, x);
      assert p in behind;
      forall y | y in behind ensures HasPredecessor(es, behind, y) {
        BehindHasPredecessors(es, vs, x, y);
      }
      c := PredecessorsMakeCycle(es, behind);
    }
  }
}
