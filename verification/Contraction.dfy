/** Removing a vertex while joining its parents to its children, and merging one vertex into another. */
module Contraction {

  import opened Reachability
  import opened Actions
  import opened Sequences
  import opened KahnOrder

  // ----- edge lists

  /** The edges from p to every member of cs, in order. */
  function Fan(p: Vertex, cs: seq<Vertex>): (r: seq<Edge>)
    ensures |r| == |cs|
  {
    seq(|cs|, i requires 0 <= i < |cs| => Edge(p, cs[i]))
  }

  /** The edges from every member of ps to v, in order. */
  function FanIn(ps: seq<Vertex>, v: Vertex): (r: seq<Edge>)
    ensures |r| == |ps|
  {
    seq(|ps|, i requires 0 <= i < |ps| => Edge(ps[i], v))
  }

  lemma FanMembers(p: Vertex, cs: seq<Vertex>, e: Edge)
    ensures e in Fan(p, cs) <==> e.source == p && e.target in cs
  {
    if e.source == p && e.target in cs {
      var i :| 0 <= i < |cs| && cs[i] == e.target;
      assert Fan(p, cs)[i] == e;
    }
  }

  lemma FanInMembers(ps: seq<Vertex>, v: Vertex, e: Edge)
    ensures e in FanIn(ps, v) <==> e.source in ps && e.target == v
  {
    if e.source in ps && e.target == v {
      var i :| 0 <= i < |ps| && ps[i] == e.source;
      assert FanIn(ps, v)[i] == e;
    }
  }

  lemma FanSnoc(p: Vertex, cs: seq<Vertex>, ds: seq<Vertex>)
    ensures Fan(p, cs + ds) == Fan(p, cs) + Fan(p, ds)
  {
  }

  lemma FanInSnoc(ps: seq<Vertex>, qs: seq<Vertex>, v: Vertex)
    ensures FanIn(ps + qs, v) == FanIn(ps, v) + FanIn(qs, v)
    ensures |qs| == 1 ==> FanIn(qs, v) == [Edge(qs[0], v)]
    ensures qs == [] ==> FanIn(ps + qs, v) == FanIn(ps, v)
  {
    assert ps + [] == ps;
  }

  /** All edges from ps to cs, parent by parent. */
  function Cross(ps: seq<Vertex>, cs: seq<Vertex>): seq<Edge> {
    if ps == [] then [] else Cross(ps[..|ps| - 1], cs) + Fan(ps[|ps| - 1], cs)
  }

  lemma {:induction false} CrossMembers(ps: seq<Vertex>, cs: seq<Vertex>, e: Edge)
    ensures e in Cross(ps, cs) <==> e.source in ps && e.target in cs
  {
    if ps != [] {
      CrossMembers(ps[..|ps| - 1], cs, e);
      assert ps == ps[..|ps| - 1] + [ps[|ps| - 1]];
      var p := ps[|ps| - 1];
      if e.source == p && e.target in cs {
        var i :| 0 <= i < |cs| && cs[i] == e.target;
        assert Fan(p, cs)[i] == e;
      }
    }
  }

  /** The edges left after clear_vertex(v): order and parallel edges are kept. */
  function Without(edges: seq<Edge>, v: Vertex): seq<Edge> {
    if edges == [] then []
    else (if edges[0].source == v || edges[0].target == v then [] else [edges[0]]) + Without(edges[1..], v)
  }

  lemma {:induction false} WithoutMembers(edges: seq<Edge>, v: Vertex, e: Edge)
    ensures e in Without(edges, v) <==> e in edges && e.source != v && e.target != v
  {
    if edges != [] {
      WithoutMembers(edges[1..], v, e);
      assert edges == [edges[0]] + edges[1..];
    }
  }

  // ----- contraction

  ghost function Contract(es: set<Edge>, v: Vertex): set<Edge> {
    (set e | e in es && e.source != v && e.target != v) +
    (set e, f | e in es && f in es && e.target == v && f.source == v && e.source != v && f.target != v
       :: Edge(e.source, f.target))
  }

  /** What remove_only_syncs does for one vertex, on edge lists. */
  function ContractList(edges: seq<Edge>, v: Vertex): seq<Edge> {
    Without(edges + Cross(Parents(edges, v), Children(edges, v)), v)
  }

  lemma ContractListSupport(edges: seq<Edge>, v: Vertex)
    ensures Support(ContractList(edges, v)) == Contract(Support(edges), v)
  {
    var ps, cs := Parents(edges, v), Children(edges, v);
    var es := Support(edges);
    forall e ensures e in Support(ContractList(edges, v)) <==> e in Contract(es, v) {
      WithoutMembers(edges + Cross(ps, cs), v, e);
      CrossMembers(ps, cs, e);
      ParentsAreSources(edges, v, e.source);
      ChildrenAreTargets(edges, v, e.target);
      if e in Contract(es, v) && e !in edges {
        var a, b :| a in es && b in es && a.target == v && b.source == v && e == Edge(a.source, b.target);
        assert a == Edge(e.source, v) && b == Edge(v, e.target);
      }
      if e.source in ps && e.target in cs {
        assert Edge(e.source, v) in es && Edge(v, e.target) in es;
      }
    }
  }

  /** Leaving v towards another vertex: the last moment at v. */
  lemma {:induction false} LeaveVertex(es: set<Edge>, n: nat, v: Vertex, w: Vertex) returns (c: Vertex, m: nat)
    requires Walk(es, n, v, w) && w != v
    ensures c != v && Edge(v, c) in es && m < n && (c == w || Walk(es, m, c, w))
    decreases n
  {
    if n == 1 {
      c, m := w, 0;
    } else {
      c :| Edge(v, c) in es && Walk(es, n - 1, c, w);
      m := n - 1;
      if c == v {
        c, m := LeaveVertex(es, n - 1, v, w);
      }
    }
  }

  lemma {:induction false} WalkIntoContraction(es: set<Edge>, v: Vertex, n: nat, u: Vertex, w: Vertex)
    requires Walk(es, n, u, w) && u != v && w != v
    ensures Reaches(Contract(es, v), u, w)
    decreases n
  {
    if n == 1 {
      StepReaches(Contract(es, v), u, w);
    } else {
      var x :| Edge(u, x) in es && Walk(es, n - 1, x, w);
      var c, m := x, n - 1;
      if x == v {
        c, m := LeaveVertex(es, n - 1, v, w);
        assert Edge(u, v) in es && Edge(v, c) in es;
      }
      assert Edge(u, c) in Contract(es, v);
      StepReaches(Contract(es, v), u, c);
      if x != v || c != w {
        WalkIntoContraction(es, v, m, c, w);
        ReachesTrans(Contract(es, v), u, c, w);
      }
    }
  }

  lemma EdgeOutOfContraction(es: set<Edge>, v: Vertex, u: Vertex, x: Vertex)
    requires Edge(u, x) in Contract(es, v)
    ensures Reaches(es, u, x) && u != v && x != v
  {
    var e := Edge(u, x);
    if e in es {
      StepReaches(es, u, x);
    } else {
      var a, b :| a in es && b in es && a.target == v && b.source == v && e == Edge(a.source, b.target);
      StepReaches(es, a.source, a.target);
      StepReaches(es, b.source, b.target);
      ReachesTrans(es, u, v, x);
    }
  }

  /** A walk over edges that each stand for a walk elsewhere, none of them touching v. */
  lemma {:induction false} WalkRefines(es: set<Edge>, fs: set<Edge>, v: Vertex, n: nat, u: Vertex, w: Vertex)
    requires forall x, y :: Edge(x, y) in fs ==> Reaches(es, x, y) && x != v && y != v
    requires Walk(fs, n, u, w)
    ensures Reaches(es, u, w) && u != v && w != v
    decreases n
  {
    if n == 1 {
      assert Edge(u, w) in fs;
    } else {
      var x :| Edge(u, x) in fs && Walk(fs, n - 1, x, w);
      WalkRefines(es, fs, v, n - 1, x, w);
      ReachesTrans(es, u, x, w);
    }
  }

  lemma WalkOutOfContraction(es: set<Edge>, v: Vertex, n: nat, u: Vertex, w: Vertex)
    requires Walk(Contract(es, v), n, u, w)
    ensures Reaches(es, u, w) && u != v && w != v
  {
    forall x, y | Edge(x, y) in Contract(es, v) ensures Reaches(es, x, y) && x != v && y != v {
      EdgeOutOfContraction(es, v, x, y);
    }
    WalkRefines(es, Contract(es, v), v, n, u, w);
  }

  /** Contraction keeps exactly the reachability between the other vertices, cycles included. */
  lemma ContractKeepsReach(es: set<Edge>, v: Vertex, u: Vertex, w: Vertex)
    requires u != v && w != v
    ensures Reaches(Contract(es, v), u, w) <==> Reaches(es, u, w)
  {
    if Reaches(es, u, w) {
      var n: nat :| Walk(es, n, u, w);
      WalkIntoContraction(es, v, n, u, w);
    }
    if Reaches(Contract(es, v), u, w) {
      var n: nat :| Walk(Contract(es, v), n, u, w);
      WalkOutOfContraction(es, v, n, u, w);
    }
  }

  /** The edges that join two members of vs. */
  ghost function Restrict(es: set<Edge>, vs: set<Vertex>): set<Edge> {
    set e | e in es && e.source in vs && e.target in vs
  }

  /** No cycle runs through vs alone, so contracting the members of vs one by one never meets a self-loop. */
  ghost predicate NoCycleInside(es: set<Edge>, vs: set<Vertex>) {
    forall v :: v in vs ==> !Reaches(Restrict(es, vs), v, v)
  }

  lemma NoCycleNoLoop(es: set<Edge>, vs: set<Vertex>, v: Vertex)
    requires NoCycleInside(es, vs) && v in vs
    ensures Edge(v, v) !in es
  {
    if Edge(v, v) in es {
      StepReaches(Restrict(es, vs), v, v);
    }
  }

  lemma ContractKeepsNoCycle(es: set<Edge>, vs: set<Vertex>, v: Vertex)
    requires NoCycleInside(es, vs) && v in vs
    ensures NoCycleInside(Contract(es, v), vs - {v})
  {
    var inner := Restrict(es, vs);
    var after := Restrict(Contract(es, v), vs - {v});
    forall e | e in after ensures e in Contract(inner, v) {
      if e !in es {
        var a, b :| a in es && b in es && a.target == v && b.source == v && e == Edge(a.source, b.target);
        assert a in inner && b in inner;
      }
    }
    forall x | x in vs - {v} ensures !Reaches(after, x, x) {
      if Reaches(after, x, x) {
        ReachesMono(after, Contract(inner, v), x, x);
        ContractKeepsReach(inner, v, x, x);
      }
    }
  }

  // ----- the sync-only actions

  function Syncs(actions: map<Vertex, Action>): set<Vertex> {
    set v | v in actions && actions[v].onlySync
  }

  function SyncList(vertices: seq<Vertex>, actions: map<Vertex, Action>): seq<Vertex> {
    if vertices == [] then []
    else
      var v := vertices[|vertices| - 1];
      SyncList(vertices[..|vertices| - 1], actions) + (if v in actions && actions[v].onlySync then [v] else [])
  }

  lemma {:induction false} SyncListMembers(vertices: seq<Vertex>, actions: map<Vertex, Action>)
    ensures forall v :: v in SyncList(vertices, actions) <==> v in vertices && v in actions && actions[v].onlySync
    ensures Distinct(vertices) ==> Distinct(SyncList(vertices, actions))
  {
    if vertices != [] {
      SyncListMembers(vertices[..|vertices| - 1], actions);
      assert vertices == vertices[..|vertices| - 1] + [vertices[|vertices| - 1]];
    }
  }

  /** The edges after contracting the first k members of list one after the other. */
  function ContractAll(edges: seq<Edge>, list: seq<Vertex>): seq<Edge> {
    if list == [] then edges
    else ContractList(ContractAll(edges, list[..|list| - 1]), list[|list| - 1])
  }

  /** The reachability between the vertices that stay is the same before and after. */
  lemma {:induction false} ContractAllKeepsReach(edges: seq<Edge>, list: seq<Vertex>, u: Vertex, w: Vertex)
    requires u !in list && w !in list
    ensures Reaches(Support(ContractAll(edges, list)), u, w) <==> Reaches(Support(edges), u, w)
  {
    if list != [] {
      var front, v := list[..|list| - 1], list[|list| - 1];
      ContractAllKeepsReach(edges, front, u, w);
      ContractListSupport(ContractAll(edges, front), v);
      ContractKeepsReach(Support(ContractAll(edges, front)), v, u, w);
    }
  }

  /**
   * No vertex carries a self-loop at the moment it is contracted.  Then the edges added for it touch neither
   * its parents nor its children, so walking the live adjacency lists is walking their initial values.
   */
  ghost predicate NeverLoops(edges: seq<Edge>, list: seq<Vertex>) {
    forall k :: 0 <= k < |list| ==> Edge(list[k], list[k]) !in ContractAll(edges, list[..k])
  }

  lemma {:induction false} ContractAllKeepsNoCycle(edges: seq<Edge>, list: seq<Vertex>, k: nat)
    requires Distinct(list) && NoCycleInside(Support(edges), Elems(list)) && k <= |list|
    ensures NoCycleInside(Support(ContractAll(edges, list[..k])), Elems(list[k..]))
  {
    if k == 0 {
      assert list[0..] == list;
    } else {
      ContractAllKeepsNoCycle(edges, list, k - 1);
      assert list[..k][..k - 1] == list[..k - 1];
      var was := ContractAll(edges, list[..k - 1]);
      ContractListSupport(was, list[k - 1]);
      ContractKeepsNoCycle(Support(was), Elems(list[k - 1..]), list[k - 1]);
      assert Elems(list[k..]) == Elems(list[k - 1..]) - {list[k - 1]};
    }
  }

  /** A cycle through contracted vertices does not vanish: without a self-loop at v it is still there afterwards. */
  lemma CycleSurvives(es: set<Edge>, vs: set<Vertex>, v: Vertex)
    requires NoCycleInside(Contract(es, v), vs - {v}) && v in vs && Edge(v, v) !in es
    ensures NoCycleInside(es, vs)
  {
    var inner := Restrict(es, vs);
    forall x | x in vs - {v} ensures !Reaches(inner, x, x) {
      if Reaches(inner, x, x) {
        ContractKeepsReach(inner, v, x, x);
        ReachesMono(Contract(inner, v), Restrict(Contract(es, v), vs - {v}), x, x);
      }
    }
    if Reaches(inner, v, v) {
      var w := ReachesFirst(inner, v, v);
      StepReaches(inner, v, w);
      ReachesTrans(inner, w, v, w);
    }
  }

  lemma {:induction false} NoCycleBefore(edges: seq<Edge>, list: seq<Vertex>, k: nat)
    requires Distinct(list) && NeverLoops(edges, list) && k <= |list|
    ensures NoCycleInside(Support(ContractAll(edges, list[..k])), Elems(list[k..]))
    decreases |list| - k
  {
    if k < |list| {
      NoCycleBefore(edges, list, k + 1);
      assert list[..k + 1][..k] == list[..k];
      var was := ContractAll(edges, list[..k]);
      ContractListSupport(was, list[k]);
      assert Elems(list[k + 1..]) == Elems(list[k..]) - {list[k]};
      CycleSurvives(Support(was), Elems(list[k..]), list[k]);
    }
  }

  /** A self-loop is met exactly if some cycle runs through contracted vertices only. */
  lemma NeverLoopsExactly(edges: seq<Edge>, list: seq<Vertex>)
    requires Distinct(list)
    ensures NeverLoops(edges, list) <==> NoCycleInside(Support(edges), Elems(list))
  {
    if NeverLoops(edges, list) {
      NoCycleBefore(edges, list, 0);
      assert list[..0] == [] && list[0..] == list;
    }
    if NoCycleInside(Support(edges), Elems(list)) {
      NeverLoopsWithoutSyncCycle(edges, list);
    }
  }

  /** Two actions that wait for each other: after the contraction of one the other waits for itself. */
  lemma LoopExample(edges: seq<Edge>, a: Vertex, b: Vertex)
    requires Edge(a, b) in edges && Edge(b, a) in edges && a != b
    ensures Edge(b, b) in ContractAll(edges, [a]) && !NeverLoops(edges, [a, b])
  {
    var list := [a, b];
    assert [a][..0] == [] && list[..1] == [a];
    ContractListSupport(edges, a);
    assert Edge(a, b) in Support(edges) && Edge(b, a) in Support(edges);
    assert Edge(b, b) in Support(ContractList(edges, a));
    assert Edge(list[1], list[1]) in ContractAll(edges, list[..1]);
  }

  lemma NeverLoopsWithoutSyncCycle(edges: seq<Edge>, list: seq<Vertex>)
    requires Distinct(list) && NoCycleInside(Support(edges), Elems(list))
    ensures NeverLoops(edges, list)
  {
    forall k | 0 <= k < |list| ensures Edge(list[k], list[k]) !in ContractAll(edges, list[..k]) {
      ContractAllKeepsNoCycle(edges, list, k);
      NoCycleNoLoop(Support(ContractAll(edges, list[..k])), Elems(list[k..]), list[k]);
    }
  }

  /** In particular an acyclic graph never gives a self-loop. */
  lemma NeverLoopsWhenAcyclic(edges: seq<Edge>, list: seq<Vertex>)
    requires Distinct(list) && Acyclic(Support(edges))
    ensures NeverLoops(edges, list)
  {
    forall v | v in Elems(list) ensures !Reaches(Restrict(Support(edges), Elems(list)), v, v) {
      if Reaches(Restrict(Support(edges), Elems(list)), v, v) {
        ReachesMono(Restrict(Support(edges), Elems(list)), Support(edges), v, v);
      }
    }
    NeverLoopsWithoutSyncCycle(edges, list);
  }

  /** Without a self-loop at v the added edges leave v's own adjacency lists alone. */
  lemma {:induction false} CrossLeavesNeighbours(edges: seq<Edge>, more: seq<Edge>, v: Vertex)
    requires forall e :: e in more ==> e.source != v && e.target != v
    ensures Parents(edges + more, v) == Parents(edges, v) && Children(edges + more, v) == Children(edges, v)
  {
    if edges != [] {
      assert (edges + more)[1..] == edges[1..] + more;
      CrossLeavesNeighbours(edges[1..], more, v);
    } else if more != [] {
      assert edges + more == more;
      CrossLeavesNeighbours([], more[1..], v);
      assert [] + more[1..] == more[1..];
    }
  }
}
