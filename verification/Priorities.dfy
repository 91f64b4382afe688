/** What set_priorities establishes. */
module Priorities {

  import opened Reachability
  import opened Actions
  import opened Sequences
  import opened KahnOrder

  predicate IsSwap(actions: map<Vertex, Action>, v: Vertex) {
    v in actions && actions[v].IsSwapMount()
  }

  /** v is a swap mount or a transitive prerequisite of one. */
  ghost predicate LeadsToSwap(es: set<Edge>, actions: map<Vertex, Action>, v: Vertex) {
    IsSwap(actions, v) || exists s :: IsSwap(actions, s) && Reaches(es, v, s)
  }

  /** Some priorities went from below 1 to 1, nothing else changed. */
  ghost predicate OnlyRaised(p: map<Vertex, int>, p': map<Vertex, int>) {
    forall v :: PriorityOf(p', v) == PriorityOf(p, v) || (PriorityOf(p, v) < 1 && PriorityOf(p', v) == 1)
  }

  /** Every prerequisite of a raised action is raised, except for the actions still being worked on. */
  ghost predicate ClosedExcept(edges: seq<Edge>, p: map<Vertex, int>, open: set<Vertex>) {
    forall e :: e in edges && e.target !in open && PriorityOf(p, e.target) >= 1 ==> PriorityOf(p, e.source) >= 1
  }

  /** Whatever is raised deserves it. */
  ghost predicate Justified(es: set<Edge>, actions: map<Vertex, Action>, p: map<Vertex, int>) {
    forall v ::
      && 0 <= PriorityOf(p, v) <= 2
      && (PriorityOf(p, v) >= 1 ==> LeadsToSwap(es, actions, v))
      && (PriorityOf(p, v) == 2 ==> IsSwap(actions, v))
  }

  function Low(vertices: set<Vertex>, p: map<Vertex, int>): set<Vertex> {
    set v | v in vertices && PriorityOf(p, v) < 1
  }

  lemma LowShrinks(vertices: set<Vertex>, p: map<Vertex, int>, p': map<Vertex, int>)
    requires OnlyRaised(p, p')
    ensures |Low(vertices, p')| <= |Low(vertices, p)|
  {
    assert Low(vertices, p') <= Low(vertices, p);
    SubsetAtMost(Low(vertices, p'), Low(vertices, p));
  }

  lemma LowShrinksStrictly(vertices: set<Vertex>, p: map<Vertex, int>, p': map<Vertex, int>, v: Vertex)
    requires OnlyRaised(p, p') && v in Low(vertices, p) && v !in Low(vertices, p')
    ensures |Low(vertices, p')| < |Low(vertices, p)|
  {
    assert Low(vertices, p') <= Low(vertices, p);
    SubsetSmaller(Low(vertices, p'), Low(vertices, p));
  }

  lemma OnlyRaisedTrans(p: map<Vertex, int>, p1: map<Vertex, int>, p2: map<Vertex, int>)
    requires OnlyRaised(p, p1) && OnlyRaised(p1, p2)
    ensures OnlyRaised(p, p2)
    ensures forall v :: PriorityOf(p1, v) >= 1 ==> PriorityOf(p2, v) >= 1
  {
  }

  lemma EdgesComeFromParents(edges: seq<Edge>, v: Vertex)
    ensures forall e :: e in edges && e.target == v ==> e.source in Parents(edges, v)
  {
    forall e | e in edges && e.target == v ensures e.source in Parents(edges, v) {
      assert e == Edge(e.source, v);
      ParentsAreSources(edges, v, e.source);
    }
  }

  lemma PrerequisiteLeadsToSwap(es: set<Edge>, actions: map<Vertex, Action>, u: Vertex, v: Vertex)
    requires Edge(u, v) in es && LeadsToSwap(es, actions, v)
    ensures LeadsToSwap(es, actions, u)
  {
    StepReaches(es, u, v);
    if !IsSwap(actions, v) {
      var s :| IsSwap(actions, s) && Reaches(es, v, s);
      ReachesTrans(es, u, v, s);
    }
  }

  /** One round: raising a prerequisite v2 of v1. */
  lemma RaiseOne(edges: seq<Edge>, actions: map<Vertex, Action>, p: map<Vertex, int>, open: set<Vertex>, v1: Vertex,
                 v2: Vertex)
    requires Edge(v2, v1) in edges && v2 in actions && PriorityOf(p, v2) < 1
    requires Justified(Support(edges), actions, p) && LeadsToSwap(Support(edges), actions, v1) &&
      ClosedExcept(edges, p, open)
    ensures OnlyRaised(p, p[v2 := 1]) && PriorityOf(p[v2 := 1], v2) == 1
    ensures Justified(Support(edges), actions, p[v2 := 1])
    ensures LeadsToSwap(Support(edges), actions, v2)
    ensures ClosedExcept(edges, p[v2 := 1], open + {v2})
  {
    PrerequisiteLeadsToSwap(Support(edges), actions, v2, v1);
  }

  /** The start of a propagation: a swap mount gets priority 2. */
  lemma RaiseSwap(edges: seq<Edge>, actions: map<Vertex, Action>, p: map<Vertex, int>, v: Vertex)
    requires IsSwap(actions, v) && Justified(Support(edges), actions, p) && ClosedExcept(edges, p, {})
    ensures Justified(Support(edges), actions, p[v := 2])
    ensures ClosedExcept(edges, p[v := 2], {v})
  {
    var p' := p[v := 2];
    assert PriorityOf(p', v) == 2 && forall x :: x != v ==> PriorityOf(p', x) == PriorityOf(p, x);
    assert LeadsToSwap(Support(edges), actions, v);
  }

  lemma {:induction false} ClosedAlongWalk(edges: seq<Edge>, p: map<Vertex, int>, n: nat, u: Vertex, v: Vertex)
    requires UpwardClosed(edges, p) && Walk(Support(edges), n, u, v) && PriorityOf(p, v) >= 1
    ensures PriorityOf(p, u) >= 1
    decreases n
  {
    if n == 1 {
      assert Edge(u, v) in edges;
    } else {
      var w :| Edge(u, w) in Support(edges) && Walk(Support(edges), n - 1, w, v);
      ClosedAlongWalk(edges, p, n - 1, w, v);
      assert Edge(u, w) in edges;
    }
  }

  /** Priority 2 exactly on swap mounts, 1 exactly on their other prerequisites, 0 elsewhere. */
  ghost predicate ExactPriorities(es: set<Edge>, actions: map<Vertex, Action>, p: map<Vertex, int>) {
    forall v :: PriorityOf(p, v) == (if IsSwap(actions, v) then 2 else if LeadsToSwap(es, actions, v) then 1 else 0)
  }

  lemma ClosedAndJustifiedIsExact(edges: seq<Edge>, actions: map<Vertex, Action>, p: map<Vertex, int>)
    requires ClosedExcept(edges, p, {}) && Justified(Support(edges), actions, p)
    requires forall v :: IsSwap(actions, v) ==> PriorityOf(p, v) == 2
    ensures ExactPriorities(Support(edges), actions, p)
  {
    var es := Support(edges);
    forall v
      ensures PriorityOf(p, v) == (if IsSwap(actions, v) then 2 else if LeadsToSwap(es, actions, v) then 1 else 0)
    {
      if !IsSwap(actions, v) && LeadsToSwap(es, actions, v) {
        var s :| IsSwap(actions, s) && Reaches(es, v, s);
        var n: nat :| Walk(es, n, v, s);
        ClosedAlongWalk(edges, p, n, v, s);
      }
    }
  }

  lemma ExactIsClosed(edges: seq<Edge>, actions: map<Vertex, Action>, p: map<Vertex, int>)
    requires ExactPriorities(Support(edges), actions, p)
    ensures UpwardClosed(edges, p)
  {
    forall e | e in edges && PriorityOf(p, e.target) >= 1 ensures PriorityOf(p, e.source) >= 1 {
      assert e == Edge(e.source, e.target);
      PrerequisiteLeadsToSwap(Support(edges), actions, e.source, e.target);
    }
  }

  /**
   * Swap first: with exact priorities, everything ordered before a swap mount is itself a swap mount or a
   * transitive prerequisite of one.
   */
  lemma SwapFirst(vertices: seq<Vertex>, edges: seq<Edge>, actions: map<Vertex, Action>, p: map<Vertex, int>,
                  order: seq<Vertex>, i: nat, j: nat)
    requires IsTopological(vertices, edges, order) && IsGreedy(vertices, edges, p, order)
    requires ExactPriorities(Support(edges), actions, p)
    requires i < j < |order| && IsSwap(actions, order[j])
    ensures LeadsToSwap(Support(edges), actions, order[i])
  {
    ExactIsClosed(edges, actions, p);
    RaisedComeFirst(vertices, edges, p, order, i, j);
  }
}
