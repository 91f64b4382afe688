/** What the prioritised topological sort promises, and the counting it rests on. */
module KahnOrder {

  import opened Sequences
  import opened Reachability
  import opened Actions

  // ----- adjacency lists, in insertion order

  function Children(edges: seq<Edge>, v: Vertex): seq<Vertex> {
    if edges == [] then []
    else (if edges[0].source == v then [edges[0].target] else []) + Children(edges[1..], v)
  }

  function Parents(edges: seq<Edge>, v: Vertex): seq<Vertex> {
    if edges == [] then []
    else (if edges[0].target == v then [edges[0].source] else []) + Parents(edges[1..], v)
  }

  lemma {:induction false} ChildrenAreTargets(edges: seq<Edge>, v: Vertex, w: Vertex)
    ensures w in Children(edges, v) <==> Edge(v, w) in edges
  {
    if edges != [] {
      ChildrenAreTargets(edges[1..], v, w);
      assert edges == [edges[0]] + edges[1..];
    }
  }

  lemma {:induction false} ParentsAreSources(edges: seq<Edge>, v: Vertex, u: Vertex)
    ensures u in Parents(edges, v) <==> Edge(u, v) in edges
  {
    if edges != [] {
      ParentsAreSources(edges[1..], v, u);
      assert edges == [edges[0]] + edges[1..];
    }
  }

  // ----- remaining in-degrees

  /** The number of edges into w, parallel ones counted, whose source is not done yet. */
  function Remaining(edges: seq<Edge>, done: set<Vertex>, w: Vertex): nat {
    if edges == [] then 0
    else (if edges[0].target == w && edges[0].source !in done then 1 else 0) + Remaining(edges[1..], done, w)
  }

  ghost predicate Ready(edges: seq<Edge>, done: set<Vertex>, w: Vertex) {
    forall e :: e in edges && e.target == w ==> e.source in done
  }

  lemma {:induction false} RemainingIsInDegree(edges: seq<Edge>, w: Vertex)
    ensures Remaining(edges, {}, w) == |Parents(edges, w)|
  {
    if edges != [] { RemainingIsInDegree(edges[1..], w); }
  }

  lemma {:induction false} RemainingZero(edges: seq<Edge>, done: set<Vertex>, w: Vertex)
    ensures Remaining(edges, done, w) == 0 <==> Ready(edges, done, w)
  {
    if edges != [] {
      RemainingZero(edges[1..], done, w);
      assert edges == [edges[0]] + edges[1..];
      if Ready(edges, done, w) {
        assert edges[0] in edges;
        assert Ready(edges[1..], done, w);
      }
    }
  }

  /** Finishing v takes away exactly v's edges into w, one for each occurrence among v's children. */
  lemma {:induction false} RemainingStep(edges: seq<Edge>, done: set<Vertex>, v: Vertex, w: Vertex)
    requires v !in done
    ensures Remaining(edges, done, w) == Remaining(edges, done + {v}, w) + multiset(Children(edges, v))[w]
  {
    if edges != [] { RemainingStep(edges[1..], done, v, w); }
  }

  // ----- sorting the queue

  ghost predicate SortedByPriority(q: seq<Vertex>, priorities: map<Vertex, int>) {
    forall i, j :: 0 <= i < j < |q| ==> PriorityOf(priorities, q[i]) <= PriorityOf(priorities, q[j])
  }

  function WithPriority(q: seq<Vertex>, priorities: map<Vertex, int>, p: int): seq<Vertex> {
    if q == [] then []
    else
      var last := q[|q| - 1];
      WithPriority(q[..|q| - 1], priorities, p) + (if PriorityOf(priorities, last) == p then [last] else [])
  }

  function InsertStable(q: seq<Vertex>, x: Vertex, priorities: map<Vertex, int>): (r: seq<Vertex>)
    ensures multiset(r) == multiset(q) + multiset{x}
  {
    if q == [] || PriorityOf(priorities, q[|q| - 1]) <= PriorityOf(priorities, x) then q + [x]
    else
      assert q == q[..|q| - 1] + [q[|q| - 1]];
      InsertStable(q[..|q| - 1], x, priorities) + [q[|q| - 1]]
  }

  function StableSort(q: seq<Vertex>, priorities: map<Vertex, int>): (r: seq<Vertex>)
    ensures multiset(r) == multiset(q)
  {
    if q == [] then []
    else
      assert q == q[..|q| - 1] + [q[|q| - 1]];
      InsertStable(StableSort(q[..|q| - 1], priorities), q[|q| - 1], priorities)
  }

  lemma {:induction false} InsertKeepsSorted(q: seq<Vertex>, x: Vertex, priorities: map<Vertex, int>)
    requires SortedByPriority(q, priorities)
    ensures SortedByPriority(InsertStable(q, x, priorities), priorities)
  {
    if q != [] && PriorityOf(priorities, q[|q| - 1]) > PriorityOf(priorities, x) {
      var last := q[|q| - 1];
      var r := InsertStable(q[..|q| - 1], x, priorities);
      InsertKeepsSorted(q[..|q| - 1], x, priorities);
      forall i | 0 <= i < |r| ensures PriorityOf(priorities, r[i]) <= PriorityOf(priorities, last) {
        assert r[i] in multiset(r);
        assert r[i] in q[..|q| - 1] || r[i] == x;
      }
    }
  }

  lemma {:induction false} InsertIsStable(q: seq<Vertex>, x: Vertex, priorities: map<Vertex, int>, p: int)
    ensures WithPriority(InsertStable(q, x, priorities), priorities, p) == WithPriority(q + [x], priorities, p)
  {
    assert (q + [x])[..|q|] == q;
    if q != [] && PriorityOf(priorities, q[|q| - 1]) > PriorityOf(priorities, x) {
      var front := q[..|q| - 1];
      InsertIsStable(front, x, priorities, p);
      assert (front + [x])[..|front|] == front;
      var r := InsertStable(front, x, priorities);
      assert (r + [q[|q| - 1]])[..|r|] == r;
    }
  }

  /** The sort used on the ready queue: a permutation, sorted, equal priorities in their old order. */
  lemma {:induction false} StableSortCorrect(q: seq<Vertex>, priorities: map<Vertex, int>)
    ensures SortedByPriority(StableSort(q, priorities), priorities)
    ensures forall p :: WithPriority(StableSort(q, priorities), priorities, p) == WithPriority(q, priorities, p)
  {
    if q != [] {
      var front := StableSort(q[..|q| - 1], priorities);
      StableSortCorrect(q[..|q| - 1], priorities);
      InsertKeepsSorted(front, q[|q| - 1], priorities);
      forall p ensures WithPriority(StableSort(q, priorities), priorities, p) == WithPriority(q, priorities, p) {
        InsertIsStable(front, q[|q| - 1], priorities, p);
        assert (front + [q[|q| - 1]])[..|front|] == front;
      }
    }
  }

  // ----- orders

  /** order lists every vertex once and every edge goes forward in it. */
  ghost predicate IsTopological(vertices: seq<Vertex>, edges: seq<Edge>, order: seq<Vertex>) {
    && Distinct(order)
    && Elems(order) == Elems(vertices)
    && forall k :: 0 <= k < |order| ==> Ready(edges, Elems(order[..k]), order[k])
  }

  /** At every step the action taken has the highest priority among those whose prerequisites are done. */
  ghost predicate IsGreedy(vertices: seq<Vertex>, edges: seq<Edge>, priorities: map<Vertex, int>, order: seq<Vertex>) {
    forall k, x :: 0 <= k < |order| && x in vertices && x !in order[..k] && Ready(edges, Elems(order[..k]), x)
      ==> PriorityOf(priorities, x) <= PriorityOf(priorities, order[k])
  }

  /** Reachability is respected: whatever u reaches comes after u. */
  lemma TopologicalRespectsReach(vertices: seq<Vertex>, edges: seq<Edge>, order: seq<Vertex>, u: Vertex, v: Vertex)
    requires IsTopological(vertices, edges, order)
    requires Within(Support(edges), Elems(vertices))
    requires Reaches(Support(edges), u, v)
    ensures u in order && v in order && IndexOf(order, u) < IndexOf(order, v)
  {
    var rank := map x | x in Elems(order) :: IndexOf(order, x) as int;
    forall e | e in Support(edges)
      ensures e.source in rank && e.target in rank && rank[e.source] < rank[e.target]
    {
      assert e.source in Elems(vertices) && e.target in Elems(vertices);
      var k := IndexOf(order, e.target);
      assert Ready(edges, Elems(order[..k]), order[k]);
      assert e.source in order[..k];
      var j :| 0 <= j < k && order[j] == e.source;
    }
    var n: nat :| Walk(Support(edges), n, u, v);
    WalkRespects(Support(edges), rank, n, u, v);
    assert u in Elems(order) && v in Elems(order);
  }

  lemma TopologicalMeansAcyclic(vertices: seq<Vertex>, edges: seq<Edge>, order: seq<Vertex>)
    requires IsTopological(vertices, edges, order)
    requires Within(Support(edges), Elems(vertices))
    ensures Acyclic(Support(edges))
  {
    forall v ensures !Reaches(Support(edges), v, v) {
      if Reaches(Support(edges), v, v) {
        TopologicalRespectsReach(vertices, edges, order, v, v);
      }
    }
  }

  /** When the queue runs dry early, the vertices left over contain a cycle. */
  lemma StuckMeansCycle(vertices: seq<Vertex>, edges: seq<Edge>, order: seq<Vertex>)
    requires Within(Support(edges), Elems(vertices))
    requires Elems(order) < Elems(vertices)
    requires forall w :: w in vertices && w !in order ==> !Ready(edges, Elems(order), w)
    ensures !Acyclic(Support(edges))
  {
    var left := Elems(vertices) - Elems(order);
    forall w | w in left ensures HasPredecessor(Support(edges), left, w) {
      assert !Ready(edges, Elems(order), w);
      var e :| e in edges && e.target == w && e.source !in Elems(order);
      assert e in Support(edges);
      assert e == Edge(e.source, w) && e.source in left;
    }
    var x :| x in Elems(vertices) && x !in Elems(order);
    assert x in left;
    var c := PredecessorsMakeCycle(Support(edges), left);
  }

  // ----- the state of the sort

  /** d[k] is the number of unfinished edges into vertices[k], the pending children not yet subtracted. */
  ghost predicate Counts(vertices: seq<Vertex>, edges: seq<Edge>, d: seq<int>, order: seq<Vertex>,
                         pending: seq<Vertex>)
  {
    && |d| == |vertices|
    && forall k :: 0 <= k < |d| ==> d[k] == Remaining(edges, Elems(order), vertices[k]) + multiset(pending)[vertices[k]]
  }

  /** Order and queue hold, without repetition, exactly the vertices whose count is zero. */
  ghost predicate Queued(vertices: seq<Vertex>, d: seq<int>, order: seq<Vertex>, q: seq<Vertex>) {
    && |d| == |vertices|
    && Distinct(order + q)
    && (forall x :: x in order + q ==> x in vertices)
    && (forall k :: 0 <= k < |d| ==> (vertices[k] in order + q <==> d[k] == 0))
  }

  ghost predicate Forward(edges: seq<Edge>, order: seq<Vertex>) {
    forall k :: 0 <= k < |order| ==> Ready(edges, Elems(order[..k]), order[k])
  }

  lemma QueueIsReady(vertices: seq<Vertex>, edges: seq<Edge>, d: seq<int>, order: seq<Vertex>, q: seq<Vertex>,
                     w: Vertex)
    requires Counts(vertices, edges, d, order, []) && Queued(vertices, d, order, q) && w in vertices
    ensures w in order + q <==> Ready(edges, Elems(order), w)
  {
    var k :| 0 <= k < |vertices| && vertices[k] == w;
    RemainingZero(edges, Elems(order), w);
  }

  /** Sorting the queue changes neither its members nor their number. */
  lemma SortKeepsQueue(vertices: seq<Vertex>, d: seq<int>, order: seq<Vertex>, q: seq<Vertex>, q': seq<Vertex>)
    requires Queued(vertices, d, order, q) && multiset(q') == multiset(q)
    ensures Queued(vertices, d, order, q')
  {
    forall x ensures x in q' <==> x in q {
      assert x in q' <==> x in multiset(q');
    }
    assert multiset(order + q') == multiset(order + q);
    DistinctByMultiset(order + q, order + q');
  }

  /** Taking the last vertex off the queue leaves its children pending. */
  lemma PopCounts(vertices: seq<Vertex>, edges: seq<Edge>, d: seq<int>, order: seq<Vertex>, v: Vertex)
    requires Counts(vertices, edges, d, order, []) && v !in order
    ensures Counts(vertices, edges, d, order + [v], Children(edges, v))
  {
    assert Elems(order + [v]) == Elems(order) + {v};
    forall k | 0 <= k < |d|
      ensures d[k] == Remaining(edges, Elems(order + [v]), vertices[k]) + multiset(Children(edges, v))[vertices[k]]
    {
      RemainingStep(edges, Elems(order), v, vertices[k]);
    }
  }

  lemma PopQueued(vertices: seq<Vertex>, d: seq<int>, order: seq<Vertex>, q: seq<Vertex>)
    requires Queued(vertices, d, order, q) && q != []
    ensures q[|q| - 1] !in order && q[|q| - 1] in vertices
    ensures Queued(vertices, d, order + [q[|q| - 1]], q[..|q| - 1])
  {
    var v := q[|q| - 1];
    assert (order + q)[|order| + |q| - 1] == v;
    forall k | 0 <= k < |order| ensures order[k] != v {
      assert (order + q)[k] == order[k];
    }
    assert q == q[..|q| - 1] + [v];
    assert (order + [v]) + q[..|q| - 1] == order + ([v] + q[..|q| - 1]);
    assert multiset((order + [v]) + q[..|q| - 1]) == multiset(order + q);
    DistinctByMultiset(order + q, (order + [v]) + q[..|q| - 1]);
    forall x ensures x in (order + [v]) + q[..|q| - 1] <==> x in order + q {
    }
  }

  /** The vertex taken off the sorted queue is as urgent as any that could come next. */
  lemma PopGreedy(vertices: seq<Vertex>, edges: seq<Edge>, priorities: map<Vertex, int>, d: seq<int>,
                  order: seq<Vertex>, q: seq<Vertex>)
    requires Counts(vertices, edges, d, order, []) && Queued(vertices, d, order, q)
    requires Forward(edges, order) && IsGreedy(vertices, edges, priorities, order)
    requires q != [] && SortedByPriority(q, priorities)
    ensures Forward(edges, order + [q[|q| - 1]]) && IsGreedy(vertices, edges, priorities, order + [q[|q| - 1]])
  {
    var v := q[|q| - 1];
    PopQueued(vertices, d, order, q);
    QueueIsReady(vertices, edges, d, order, q, v);
    forall x | x in vertices && x !in order && Ready(edges, Elems(order), x)
      ensures PriorityOf(priorities, x) <= PriorityOf(priorities, v)
    {
      QueueIsReady(vertices, edges, d, order, q, x);
      assert x in q;
    }
    OneMoreInOrder(vertices, edges, priorities, order, v);
  }

  lemma OneMoreInOrder(vertices: seq<Vertex>, edges: seq<Edge>, priorities: map<Vertex, int>, order: seq<Vertex>,
                       v: Vertex)
    requires Forward(edges, order) && IsGreedy(vertices, edges, priorities, order)
    requires Ready(edges, Elems(order), v)
    requires forall x :: x in vertices && x !in order && Ready(edges, Elems(order), x) ==>
      PriorityOf(priorities, x) <= PriorityOf(priorities, v)
    ensures Forward(edges, order + [v]) && IsGreedy(vertices, edges, priorities, order + [v])
  {
    var longer := order + [v];
    forall k | 0 <= k < |longer| ensures longer[..k] == order[..k] {
    }
    assert order[..|order|] == order;
  }

  /** Subtracting one edge into c, and queueing c if it was the last one. */
  lemma Release(vertices: seq<Vertex>, edges: seq<Edge>, d: seq<int>, order: seq<Vertex>, q: seq<Vertex>,
                pending: seq<Vertex>, i: nat, q': seq<Vertex>)
    requires Distinct(vertices)
    requires Counts(vertices, edges, d, order, pending) && Queued(vertices, d, order, q)
    requires pending != [] && i < |vertices| && vertices[i] == pending[0]
    requires q' == if d[i] == 1 then q + [pending[0]] else q
    ensures d[i] >= 1
    ensures Counts(vertices, edges, d[i := d[i] - 1], order, pending[1..])
    ensures Queued(vertices, d[i := d[i] - 1], order, q')
  {
    var c := pending[0];
    assert pending == [c] + pending[1..];
    assert d[i] >= 1;
    assert c !in order + q;
    assert order + q' == order + q || order + q' == (order + q) + [c];
    var d' := d[i := d[i] - 1];
    forall k | 0 <= k < |d'| ensures vertices[k] in order + q' <==> d'[k] == 0 {
    }
  }

  lemma OrderFits(vertices: seq<Vertex>, d: seq<int>, order: seq<Vertex>, q: seq<Vertex>)
    requires Queued(vertices, d, order, q)
    ensures |order| <= |vertices|
  {
    forall i, j | 0 <= i < j < |order| ensures order[i] != order[j] {
      assert (order + q)[i] == order[i] && (order + q)[j] == order[j];
    }
    forall x | x in order ensures x in vertices {
      assert x in order + q;
    }
    DistinctFits(vertices, order);
  }

  /** Once the queue is empty: a full order, or a cycle among the vertices left over. */
  lemma OrderIsComplete(vertices: seq<Vertex>, edges: seq<Edge>, d: seq<int>, order: seq<Vertex>)
    requires Distinct(vertices) && (forall e :: e in edges ==> e.source in vertices && e.target in vertices)
    requires Counts(vertices, edges, d, order, []) && Queued(vertices, d, order, []) && Forward(edges, order)
    ensures |order| == |vertices| ==> IsTopological(vertices, edges, order)
    ensures |order| == |vertices| <==> Acyclic(Support(edges))
  {
    assert order + [] == order;
    DistinctFits(vertices, order);
    assert Within(Support(edges), Elems(vertices));
    if |order| == |vertices| {
      TopologicalMeansAcyclic(vertices, edges, order);
    } else {
      forall w | w in vertices && w !in order ensures !Ready(edges, Elems(order), w) {
        QueueIsReady(vertices, edges, d, order, [], w);
      }
      StuckMeansCycle(vertices, edges, order);
    }
  }

  // ----- swap first

  /** Every prerequisite of a raised action is raised too. */
  ghost predicate UpwardClosed(edges: seq<Edge>, priorities: map<Vertex, int>) {
    forall e :: e in edges && PriorityOf(priorities, e.target) >= 1 ==> PriorityOf(priorities, e.source) >= 1
  }

  lemma LeastRaised(edges: seq<Edge>, priorities: map<Vertex, int>, order: seq<Vertex>, i: nat, j: nat) returns (m: nat)
    requires i < j < |order| && PriorityOf(priorities, order[j]) >= 1
    requires forall k :: 0 <= k < |order| ==> Ready(edges, Elems(order[..k]), order[k])
    requires UpwardClosed(edges, priorities)
    ensures i <= m <= j && PriorityOf(priorities, order[m]) >= 1
    ensures m > i ==> Ready(edges, Elems(order[..i]), order[m])
  {
    m := i;
    while m < j && PriorityOf(priorities, order[m]) < 1
      invariant i <= m <= j
      invariant forall k :: i <= k < m ==> PriorityOf(priorities, order[k]) < 1
    {
      m := m + 1;
    }
    forall e | e in edges && e.target == order[m] ensures e.source in Elems(order[..i]) {
      assert Ready(edges, Elems(order[..m]), order[m]);
      assert e.source in order[..m];
      var k :| 0 <= k < m && order[k] == e.source;
      assert PriorityOf(priorities, order[k]) >= 1;
      assert order[..i][k] == e.source;
    }
  }

  /** The raised actions form a prefix of every greedy topological order. */
  lemma RaisedComeFirst(vertices: seq<Vertex>, edges: seq<Edge>, priorities: map<Vertex, int>, order: seq<Vertex>,
                        i: nat, j: nat)
    requires IsTopological(vertices, edges, order) && IsGreedy(vertices, edges, priorities, order)
    requires UpwardClosed(edges, priorities)
    requires i < j < |order| && PriorityOf(priorities, order[j]) >= 1
    ensures PriorityOf(priorities, order[i]) >= 1
  {
    var m := LeastRaised(edges, priorities, order, i, j);
    if m > i {
      assert order[m] in Elems(order);
      assert order[m] in vertices;
      assert order[m] !in order[..i];
    }
  }
}
