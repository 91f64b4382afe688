/** Undoing contractions on orders: the contracted vertices find a place in every order of what was left. */
module Expansion {

  import opened Reachability
  import opened Sequences
  import opened Contraction

  /** All edges go forward in the order. */
  ghost predicate Linear(es: set<Edge>, order: seq<Vertex>) {
    && Distinct(order)
    && forall e, k :: e in es && 0 <= k < |order| && e.target == order[k] ==> e.source in order[..k]
  }

  /** The first place for v behind all its parents. */
  ghost function PlaceFor(es: set<Edge>, v: Vertex, order: seq<Vertex>): (p: nat)
    ensures p <= |order|
    ensures forall u :: u in order && Edge(u, v) in es ==> u in order[..p]
    ensures p > 0 ==> Edge(order[p - 1], v) in es
  {
    if order == [] then 0
    else
      var n := |order| - 1;
      assert order == order[..n] + [order[n]];
      if Edge(order[n], v) in es then n + 1
      else
        var p := PlaceFor(es, v, order[..n]);
        assert order[..n][..p] == order[..p];
        p
  }

  /** v in place p, everything else as it was. */
  function Inserted(order: seq<Vertex>, p: nat, v: Vertex): (r: seq<Vertex>)
    requires p <= |order|
    ensures |r| == |order| + 1 && r[p] == v
    ensures forall i :: 0 <= i < p ==> r[i] == order[i]
    ensures forall i :: p <= i < |order| ==> r[i + 1] == order[i]
  {
    order[..p] + [v] + order[p..]
  }

  lemma InsertedIsDistinct(order: seq<Vertex>, p: nat, v: Vertex)
    requires Distinct(order) && v !in order && p <= |order|
    ensures Distinct(Inserted(order, p, v))
  {
    forall i, j | 0 <= i < j < |order| + 1 ensures Inserted(order, p, v)[i] != Inserted(order, p, v)[j] {
      if i != p && j != p {
        assert order[if i < p then i else i - 1] != order[if j < p then j else j - 1];
      }
    }
  }

  lemma InsertedElems(order: seq<Vertex>, p: nat, v: Vertex)
    requires p <= |order|
    ensures Elems(Inserted(order, p, v)) == Elems(order) + {v}
  {
    assert order == order[..p] + order[p..];
  }

  lemma InsertedSurvives(order: seq<Vertex>, p: nat, v: Vertex)
    requires v !in order && p <= |order|
    ensures Survivors(Inserted(order, p, v), {v}) == order
  {
    SurvivorsOfOthers(order[..p], {v});
    SurvivorsFirst(order[p..], v);
    SurvivorsJoined(order[..p], [v] + order[p..], {v});
    assert Inserted(order, p, v) == order[..p] + ([v] + order[p..]);
  }

  lemma SurvivorsFirst(back: seq<Vertex>, v: Vertex)
    requires v !in back
    ensures Survivors([v] + back, {v}) == back
  {
    SurvivorsOfOthers(back, {v});
    assert ([v] + back)[1..] == back;
  }

  /** One contraction undone: v is put behind its last parent, and so before all its children. */
  lemma PutBack(es: set<Edge>, v: Vertex, order: seq<Vertex>) returns (longer: seq<Vertex>)
    requires Linear(Contract(es, v), order) && v !in order && Edge(v, v) !in es
    requires Within(es, Elems(order) + {v})
    ensures Linear(es, longer) && Elems(longer) == Elems(order) + {v}
    ensures Survivors(longer, {v}) == order
  {
    var p := PlaceFor(es, v, order);
    longer := Inserted(order, p, v);
    InsertedIsDistinct(order, p, v);
    InsertedElems(order, p, v);
    InsertedSurvives(order, p, v);
    forall e, k | e in es && 0 <= k < |longer| && e.target == longer[k] ensures e.source in longer[..k] {
      if e.target == v {
        assert k == p;
        ParentIsBefore(es, v, order, e);
      } else {
        ChildOrOther(es, v, order, e, if k < p then k else k - 1);
        GoesForward(v, order, p, e.source, k);
      }
    }
  }

  /** What an edge into another vertex than v says about the old order. */
  lemma ChildOrOther(es: set<Edge>, v: Vertex, order: seq<Vertex>, e: Edge, i: nat)
    requires Linear(Contract(es, v), order) && v !in order
    requires e in es && i < |order| && e.target == order[i]
    ensures if e.source == v then PlaceFor(es, v, order) <= i else e.source in order[..i]
  {
    assert order[i] in order;
    if e.source == v {
      ChildIsBehind(es, v, order, i);
    } else {
      Stays(es, v, e);
      LinearStep(Contract(es, v), order, e, i);
    }
  }

  lemma GoesForward(v: Vertex, order: seq<Vertex>, p: nat, x: Vertex, k: nat)
    requires v !in order && p <= |order| && k <= |order| && k != p
    requires var i := if k < p then k else k - 1; if x == v then p <= i else x in order[..i]
    ensures x in Inserted(order, p, v)[..k]
  {
    if x == v {
      assert Inserted(order, p, v)[..k][p] == v;
    } else {
      OthersStayBefore(v, order, p, x, k);
    }
  }

  lemma LinearStep(fs: set<Edge>, order: seq<Vertex>, e: Edge, i: nat)
    requires Linear(fs, order) && e in fs && i < |order| && e.target == order[i]
    ensures e.source in order[..i]
  {
  }

  lemma Stays(es: set<Edge>, v: Vertex, e: Edge)
    requires e in es && e.source != v && e.target != v
    ensures e in Contract(es, v)
  {
  }

  lemma Joins(es: set<Edge>, v: Vertex, u: Vertex, w: Vertex)
    requires Edge(u, v) in es && Edge(v, w) in es && u != v && w != v
    ensures Edge(u, w) in Contract(es, v)
  {
    var a, b := Edge(u, v), Edge(v, w);
    assert Edge(a.source, b.target) == Edge(u, w);
  }

  lemma ParentIsBefore(es: set<Edge>, v: Vertex, order: seq<Vertex>, e: Edge)
    requires v !in order && Edge(v, v) !in es && Within(es, Elems(order) + {v})
    requires e in es && e.target == v
    ensures var p := PlaceFor(es, v, order); e.source in Inserted(order, p, v)[..p]
  {
    var p := PlaceFor(es, v, order);
    assert e == Edge(e.source, v) && e.source in order;
    assert Inserted(order, p, v)[..p] == order[..p];
  }

  /** The children of v come after its last parent, because the contraction joined them. */
  lemma ChildIsBehind(es: set<Edge>, v: Vertex, order: seq<Vertex>, i: nat)
    requires Linear(Contract(es, v), order) && v !in order && i < |order| && Edge(v, order[i]) in es
    ensures PlaceFor(es, v, order) <= i
  {
    var p := PlaceFor(es, v, order);
    if p > 0 {
      ChildIsBehindParent(es, v, order, p - 1, i);
    }
  }

  lemma ChildIsBehindParent(es: set<Edge>, v: Vertex, order: seq<Vertex>, k: nat, i: nat)
    requires Linear(Contract(es, v), order) && v !in order && k < |order| && i < |order|
    requires Edge(order[k], v) in es && Edge(v, order[i]) in es
    ensures k < i
  {
    assert order[k] in order && order[i] in order;
    Joins(es, v, order[k], order[i]);
    LinearStep(Contract(es, v), order, Edge(order[k], order[i]), i);
    IsInFront(order, k, i);
  }

  lemma IsInFront(order: seq<Vertex>, k: nat, i: nat)
    requires Distinct(order) && k < |order| && i <= |order| && order[k] in order[..i]
    ensures k < i
  {
    var a :| 0 <= a < i && order[..i][a] == order[k];
    assert order[a] == order[k];
  }

  lemma OthersStayBefore(v: Vertex, order: seq<Vertex>, p: nat, x: Vertex, k: nat)
    requires v !in order && p <= |order| && k <= |order| && k != p
    requires x in order[..if k < p then k else k - 1]
    ensures x in Inserted(order, p, v)[..k]
  {
    var i := if k < p then k else k - 1;
    var a :| 0 <= a < i && order[..i][a] == x;
    assert Inserted(order, p, v)[..k][if a < p then a else a + 1] == x;
  }

  lemma ContractEnds(es: set<Edge>, v: Vertex, e: Edge) returns (a: Edge, b: Edge)
    requires e in Contract(es, v)
    ensures a in es && b in es && e == Edge(a.source, b.target) && e.source != v && e.target != v
  {
    if e in es && e.source != v && e.target != v {
      a, b := e, e;
    } else {
      a, b :| a in es && b in es && a.target == v && b.source == v && a.source != v && b.target != v &&
        e == Edge(a.source, b.target);
    }
  }

  /** The edges left after the contractions join vertices that are left. */
  lemma {:induction false} ContractAllEnds(edges: seq<Edge>, list: seq<Vertex>, vs: set<Vertex>, e: Edge)
    requires Within(Support(edges), vs) && e in ContractAll(edges, list)
    ensures e.source in vs && e.target in vs && e.source !in list && e.target !in list
  {
    if list == [] {
      assert e in Support(edges);
    } else {
      var front, v := list[..|list| - 1], list[|list| - 1];
      ContractListSupport(ContractAll(edges, front), v);
      assert e in Support(ContractAll(edges, list));
      var a, b := ContractEnds(Support(ContractAll(edges, front)), v, e);
      ContractAllEnds(edges, front, vs, a);
      ContractAllEnds(edges, front, vs, b);
      assert list == front + [v];
    }
  }

  /** All contractions undone: every order of what was left extends to an order of all the vertices. */
  lemma {:induction false} PutAllBack(edges: seq<Edge>, list: seq<Vertex>, order: seq<Vertex>, vs: set<Vertex>)
    returns (full: seq<Vertex>)
    requires Distinct(list) && NeverLoops(edges, list) && Within(Support(edges), vs)
    requires Elems(list) <= vs && Elems(order) == vs - Elems(list)
    requires Linear(Support(ContractAll(edges, list)), order)
    ensures Linear(Support(edges), full) && Elems(full) == vs
    ensures Survivors(full, Elems(list)) == order
  {
    if list == [] {
      full := order;
      assert Elems(list) == {};
      SurvivorsOfOthers(order, {});
    } else {
      var front, v := list[..|list| - 1], list[|list| - 1];
      LastOfList(list);
      FrontNeverLoops(edges, list);
      var longer := PutLastBack(edges, list, order, vs);
      full := PutAllBack(edges, front, longer, vs);
      SurvivorsStep(full, Elems(front), v);
    }
  }

  lemma LastOfList(list: seq<Vertex>)
    requires Distinct(list) && list != []
    ensures var front, v := list[..|list| - 1], list[|list| - 1];
      && Distinct(front) && v !in front && Elems(list) == Elems(front) + {v}
      && forall x :: x in list <==> x in front || x == v
  {
    assert list == list[..|list| - 1] + [list[|list| - 1]];
  }

  lemma PutLastBack(edges: seq<Edge>, list: seq<Vertex>, order: seq<Vertex>, vs: set<Vertex>)
    returns (longer: seq<Vertex>)
    requires Distinct(list) && NeverLoops(edges, list) && list != [] && Within(Support(edges), vs)
    requires Elems(list) <= vs && Elems(order) == vs - Elems(list)
    requires Linear(Support(ContractAll(edges, list)), order)
    ensures Linear(Support(ContractAll(edges, list[..|list| - 1])), longer)
    ensures Elems(longer) == vs - Elems(list[..|list| - 1])
    ensures Survivors(longer, {list[|list| - 1]}) == order
  {
    var front, v := list[..|list| - 1], list[|list| - 1];
    var was := ContractAll(edges, front);
    LastOfList(list);
    ContractListSupport(was, v);
    forall e | e in Support(was) ensures e.source in Elems(order) + {v} && e.target in Elems(order) + {v} {
      ContractAllEnds(edges, front, vs, e);
    }
    FrontNeverLoops(edges, list);
    assert v !in Elems(order);
    longer := PutBack(Support(was), v, order);
  }

  lemma FrontNeverLoops(edges: seq<Edge>, list: seq<Vertex>)
    requires NeverLoops(edges, list) && list != []
    ensures NeverLoops(edges, list[..|list| - 1])
    ensures Edge(list[|list| - 1], list[|list| - 1]) !in ContractAll(edges, list[..|list| - 1])
  {
    var front := list[..|list| - 1];
    forall k | 0 <= k < |front| ensures Edge(front[k], front[k]) !in ContractAll(edges, front[..k]) {
      assert front[..k] == list[..k];
    }
  }

  /** Only a graph without cycles has an order of its vertices. */
  lemma LinearMeansAcyclic(es: set<Edge>, order: seq<Vertex>)
    requires Linear(es, order) && Within(es, Elems(order))
    ensures Acyclic(es)
  {
    forall u, v | Reaches(es, u, v) ensures u in order && v in order && IndexOf(order, u) < IndexOf(order, v) {
      ReachedComesLater(es, order, u, v);
    }
  }

  lemma ReachedComesLater(es: set<Edge>, order: seq<Vertex>, u: Vertex, v: Vertex)
    requires Linear(es, order) && Within(es, Elems(order)) && Reaches(es, u, v)
    ensures u in order && v in order && IndexOf(order, u) < IndexOf(order, v)
  {
    var rank := map x | x in Elems(order) :: IndexOf(order, x);
    forall e | e in es ensures e.source in rank && e.target in rank && rank[e.source] < rank[e.target] {
      assert e.source in Elems(order) && e.target in Elems(order);
      var k := IndexOf(order, e.target);
      assert e.source in order[..k];
      var a :| 0 <= a < k && order[..k][a] == e.source;
      assert order[a] == order[IndexOf(order, e.source)];
    }
    var n: nat :| Walk(es, n, u, v);
    WalkRespects(es, rank, n, u, v);
  }
}
