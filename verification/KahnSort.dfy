/** Kahn's algorithm with a queue kept sorted by priority. */
module KahnSorting {

  import opened Wrappers
  import opened Reachability
  import opened Sequences
  import opened KahnOrder

  /** An order of all vertices, or the report that the graph is not acyclic. */
  method KahnSort(vertices: seq<Vertex>, edges: seq<Edge>, priorities: map<Vertex, int>)
    returns (r: Option<seq<Vertex>>)
    requires Distinct(vertices) && forall e :: e in edges ==> e.source in vertices && e.target in vertices
    ensures r.Some? ==> IsTopological(vertices, edges, r.value) && IsGreedy(vertices, edges, priorities, r.value)
    ensures r.Some? <==> Acyclic(Support(edges))
  {
    var inDegrees, q := CountInDegrees(vertices, edges);
    var order: seq<Vertex> := [];
    while q != []
      invariant fresh(inDegrees)
      invariant Counts(vertices, edges, inDegrees[..], order, [])
      invariant Queued(vertices, inDegrees[..], order, q)
      invariant Forward(edges, order) && IsGreedy(vertices, edges, priorities, order)
      decreases |vertices| - |order|
    {
      StableSortCorrect(q, priorities);
      SortKeepsQueue(vertices, inDegrees[..], order, q, StableSort(q, priorities));
      q := StableSort(q, priorities);
      PopGreedy(vertices, edges, priorities, inDegrees[..], order, q);
      PopQueued(vertices, inDegrees[..], order, q);
      var v := q[|q| - 1];
      PopCounts(vertices, edges, inDegrees[..], order, v);
      q := q[..|q| - 1];
      order := order + [v];
      OrderFits(vertices, inDegrees[..], order, q);
      q := ReleaseChildren(vertices, edges, inDegrees, order, q, v);
    }
    OrderIsComplete(vertices, edges, inDegrees[..], order);
    if |order| != |vertices| {
      return None;
    }
    r := Some(order);
  }

  /** The in-degrees, and the vertices without parents in vertex order. */
  method CountInDegrees(vertices: seq<Vertex>, edges: seq<Edge>) returns (inDegrees: array<int>, q: seq<Vertex>)
    requires Distinct(vertices)
    ensures fresh(inDegrees)
    ensures Counts(vertices, edges, inDegrees[..], [], [])
    ensures Queued(vertices, inDegrees[..], [], q)
  {
    inDegrees := new int[|vertices|];
    q := [];
    for i := 0 to |vertices|
      invariant forall k :: 0 <= k < i ==> inDegrees[k] == Remaining(edges, {}, vertices[k])
      invariant Distinct(q) && forall x :: x in q ==> x in vertices[..i]
      invariant forall k :: 0 <= k < i ==> (vertices[k] in q <==> inDegrees[k] == 0)
    {
      var v := vertices[i];
      RemainingIsInDegree(edges, v);
      assert v !in vertices[..i];
      inDegrees[i] := |Parents(edges, v)|;
      if inDegrees[i] == 0 {
        q := q + [v];
      }
    }
    assert [] + q == q;
    assert Elems<Vertex>([]) == {};
  }

  /** Subtracts v's edges; children whose last prerequisite v was are queued. */
  method ReleaseChildren(vertices: seq<Vertex>, edges: seq<Edge>, inDegrees: array<int>, ghost order: seq<Vertex>,
                         queue: seq<Vertex>, v: Vertex)
    returns (q: seq<Vertex>)
    requires Distinct(vertices) && forall e :: e in edges ==> e.source in vertices && e.target in vertices
    requires Counts(vertices, edges, inDegrees[..], order, Children(edges, v))
    requires Queued(vertices, inDegrees[..], order, queue)
    modifies inDegrees
    ensures Counts(vertices, edges, inDegrees[..], order, [])
    ensures Queued(vertices, inDegrees[..], order, q)
  {
    q := queue;
    var children := Children(edges, v);
    assert children[0..] == children;
    for j := 0 to |children|
      invariant Counts(vertices, edges, inDegrees[..], order, children[j..])
      invariant Queued(vertices, inDegrees[..], order, q)
    {
      ChildrenAreTargets(edges, v, children[j]);
      assert children[j..][1..] == children[j + 1..];
      q := ReleaseChild(vertices, edges, inDegrees, order, children[j..], q, children[j]);
    }
  }

  method ReleaseChild(vertices: seq<Vertex>, ghost edges: seq<Edge>, inDegrees: array<int>, ghost order: seq<Vertex>,
                      ghost pending: seq<Vertex>, queue: seq<Vertex>, c: Vertex)
    returns (q: seq<Vertex>)
    requires Distinct(vertices) && c in vertices && pending != [] && pending[0] == c
    requires Counts(vertices, edges, inDegrees[..], order, pending)
    requires Queued(vertices, inDegrees[..], order, queue)
    modifies inDegrees
    ensures Counts(vertices, edges, inDegrees[..], order, pending[1..])
    ensures Queued(vertices, inDegrees[..], order, q)
  {
    var i := IndexOf(vertices, c);
    ghost var d := inDegrees[..];
    q := ReleaseOne(inDegrees, i, queue, c);
    Release(vertices, edges, d, order, queue, pending, i, q);
  }

  method ReleaseOne(inDegrees: array<int>, i: nat, queue: seq<Vertex>, c: Vertex) returns (q: seq<Vertex>)
    requires i < inDegrees.Length
    modifies inDegrees
    ensures inDegrees[..] == old(inDegrees[..])[i := old(inDegrees[i]) - 1]
    ensures q == if old(inDegrees[i]) == 1 then queue + [c] else queue
  {
    q := queue;
    inDegrees[i] := inDegrees[i] - 1;
    if inDegrees[i] == 0 {
      q := q + [c];
    }
  }
}
